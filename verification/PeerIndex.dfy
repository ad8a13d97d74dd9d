/**
 The tracker's peers as the source keeps them: records in a hash table, found by the text of their endpoint. Here the
 table of ChatRooms is proved to be what that hash table holds.
 */
module PeerIndex {
  import opened Decimal
  import opened OrderedMap
  import opened Sequences
  import opened UtChains
  import opened UtList
  import opened UtHash
  import opened ChatRooms
  import opened ChatSafety
  import opened Endpoint

  type Handles = seq<Entry<Key, Handle>>

  /** Room and alive flag of the struct that a handle is part of. */
  type Fields = map<Handle, Occupant>

  /** A handle filed under the text of a peer's endpoint, with the peer's fields. */
  ghost predicate Stored(e: Entry<Key, Handle>, fields: Fields, p: Entry<Addr, Occupant>)
  {
    WellFormed(p.key) && e.key == KeyText(p.key) && e.val in fields && fields[e.val] == p.val
  }

  ghost predicate Stores(m: Handles, fields: Fields, t: PeerTable)
  {
    |m| == |t| && forall i | 0 <= i < |m| :: Stored(m[i], fields, t[i])
  }

  ghost predicate HandlesDistinct(m: Handles)
  {
    forall i, j | 0 <= i < j < |m| :: m[i].val != m[j].val
  }

  /** Who is found under the text of an endpoint is the peer of that endpoint. */
  lemma {:induction false} LookupStored(m: Handles, fields: Fields, t: PeerTable, a: Addr)
    requires Stores(m, fields, t) && WellFormed(a)
    ensures var h := Lookup(m, KeyText(a));
            if h.None? then Lookup(t, a).None? else h.value in fields && Lookup(t, a) == Some(fields[h.value])
  {
    if |m| > 0 {
      assert Stored(m[0], fields, t[0]);
      if m[0].key == KeyText(a) {
        KeysDiffer(t[0].key, a);
      } else {
        LookupStored(m[1..], fields, t[1..], a);
      }
    }
  }

  lemma {:induction false} AddStored(m: Handles, fields: Fields, t: PeerTable, a: Addr, h: Handle, o: Occupant)
    requires Stores(m, fields, t) && WellFormed(a) && (forall i | 0 <= i < |m| :: m[i].val != h)
    ensures Stores(Add(m, KeyText(a), h), fields[h := o], Add(t, a, o))
  {
    var n, u := Add(m, KeyText(a), h), Add(t, a, o);
    forall i | 0 <= i < |n| ensures Stored(n[i], fields[h := o], u[i]) {
      assert i < |m| ==> Stored(m[i], fields, t[i]);
    }
  }

  lemma {:induction false} RemoveStored(m: Handles, fields: Fields, t: PeerTable, a: Addr)
    requires Stores(m, fields, t) && WellFormed(a)
    ensures Stores(Remove(m, KeyText(a)), fields, Remove(t, a))
  {
    if |m| > 0 {
      assert Stored(m[0], fields, t[0]);
      if m[0].key == KeyText(a) {
        KeysDiffer(t[0].key, a);
      } else {
        RemoveStored(m[1..], fields, t[1..], a);
        var n, u := Remove(m, KeyText(a)), Remove(t, a);
        assert n[0] == m[0] && u[0] == t[0] && n[1..] == Remove(m[1..], KeyText(a)) && u[1..] == Remove(t[1..], a);
        FirstStored(n, fields, u);
      }
    }
  }

  lemma ReplaceStored(m: Handles, fields: Fields, t: PeerTable, a: Addr, h: Handle, o: Occupant)
    requires Stores(m, fields, t) && WellFormed(a) && (forall i | 0 <= i < |m| :: m[i].val != h)
    ensures Stores(Replace(m, KeyText(a), h), fields[h := o], Replace(t, a, o))
  {
    RemoveStored(m, fields, t, a);
    RemoveUnused(m, KeyText(a), h);
    AddStored(Remove(m, KeyText(a)), fields, Remove(t, a), a, h, o);
  }

  lemma {:induction false} RemoveUnused(m: Handles, k: Key, h: Handle)
    requires forall i | 0 <= i < |m| :: m[i].val != h
    ensures forall i | 0 <= i < |Remove(m, k)| :: Remove(m, k)[i].val != h
  {
    if |m| > 0 {
      RemoveUnused(m[1..], k, h);
    }
  }

  /** Setting the flag in the record that is found marks the peer alive. */
  lemma {:induction false} PongStored(m: Handles, fields: Fields, t: PeerTable, a: Addr, h: Handle)
    requires Stores(m, fields, t) && HandlesDistinct(m) && WellFormed(a) && Lookup(m, KeyText(a)) == Some(h) && h in fields
    ensures Stores(m, fields[h := fields[h].(alive := true)], Pong(t, a))
  {
    var after := fields[h := fields[h].(alive := true)];
    assert Stored(m[0], fields, t[0]);
    if m[0].key == KeyText(a) {
      KeysDiffer(t[0].key, a);
      OthersStored(m[1..], fields, t[1..], h, after[h]);
    } else {
      LookupIn(m[1..], KeyText(a), h);
      PongStored(m[1..], fields, t[1..], a, h);
    }
    FirstStored(m, after, Pong(t, a));
  }

  lemma FirstStored(m: Handles, fields: Fields, t: PeerTable)
    requires |m| > 0 && |t| > 0 && Stored(m[0], fields, t[0]) && Stores(m[1..], fields, t[1..])
    ensures Stores(m, fields, t)
  {
    forall i | 0 < i < |m| ensures Stored(m[i], fields, t[i]) {
      assert Stored(m[1..][i - 1], fields, t[1..][i - 1]);
    }
  }

  lemma {:induction false} LookupIn(m: Handles, k: Key, h: Handle)
    requires Lookup(m, k) == Some(h)
    ensures exists i :: 0 <= i < |m| && m[i] == Entry(k, h)
  {
    if m[0].key == k {
      assert m[0] == Entry(k, h);
    } else {
      LookupIn(m[1..], k, h);
      var i :| 0 <= i < |m| - 1 && m[1..][i] == Entry(k, h);
      assert m[i + 1] == Entry(k, h);
    }
  }

  lemma OthersStored(m: Handles, fields: Fields, t: PeerTable, h: Handle, o: Occupant)
    requires Stores(m, fields, t) && (forall i | 0 <= i < |m| :: m[i].val != h)
    ensures Stores(m, fields[h := o], t)
  {
    forall i | 0 <= i < |m| ensures Stored(m[i], fields[h := o], t[i]) {
      assert Stored(m[i], fields, t[i]);
    }
  }

  /** Clearing the flag in record i clears it in entry i. */
  lemma ClearStored(m: Handles, fields: Fields, t: PeerTable, i: nat)
    requires Stores(m, fields, t) && HandlesDistinct(m) && i < |m| && m[i].val in fields
    ensures Stores(m, fields[m[i].val := fields[m[i].val].(alive := false)], t[i := Dead(t[i])])
  {
    var after := fields[m[i].val := fields[m[i].val].(alive := false)];
    forall k | 0 <= k < |m| ensures Stored(m[k], after, t[i := Dead(t[i])][k]) {
      assert Stored(m[k], fields, t[k]);
    }
  }

  ghost function At(items: seq<Handle>, i: nat): Handle?
  {
    if i < |items| then items[i] else null
  }

  ghost function Pinged(t: PeerTable, i: nat): PeerTable
    requires i <= |t|
  {
    SendPings(t[..i]).peers + t[i..]
  }

  ghost function PingsTo(t: PeerTable, i: nat): seq<Send>
    requires i <= |t|
  {
    SendPings(t[..i]).sends
  }

  lemma PingedAll(t: PeerTable)
    ensures Pinged(t, 0) == t && PingsTo(t, 0) == []
    ensures Effect(Pinged(t, |t|), PingsTo(t, |t|)) == SendPings(t)
  {
    assert t[..|t|] == t;
  }

  lemma PingedNext(t: PeerTable, i: nat)
    requires i < |t|
    ensures |Pinged(t, i)| == |t| && Pinged(t, i)[i] == t[i]
    ensures Pinged(t, i + 1) == Pinged(t, i)[i := Dead(t[i])] && PingsTo(t, i + 1) == PingsTo(t, i) + [Send(t[i].key, Ping)]
  {
    PingsAt(t[..i]);
    PingsAt(t[..i + 1]);
  }

  class Index {
    const table: Table
    var fields: Fields
    ghost var peers: PeerTable

    ghost predicate Valid()
      reads this, table, table.buckets, table.bloomBv, Elems(table.items)
    {
      table.Valid() && Stores(table.contents, fields, peers)
    }

    constructor (hash: Key -> nat, bloom: bool, bloomNbits: nat)
      ensures Valid() && peers == [] && fresh(table) && fresh(table.buckets) && fresh(table.bloomBv)
    {
      table := new Table(hash, bloom, bloomNbits);
      fields, peers := map[], [];
    }

    /** HASH_FIND_STR on the printed endpoint. */
    method Find(a: Addr) returns (s: Handle?)
      requires Valid() && WellFormed(a)
      ensures if s == null then Lookup(peers, a).None? else s in fields && Lookup(peers, a) == Some(fields[s])
      ensures s == Table.Pointer(Lookup(table.contents, KeyText(a)))
    {
      s := table.Find(KeyText(a));
      LookupStored(table.contents, fields, peers, a);
    }

    lemma Unused(h: Handle)
      requires table.Listed() && h !in Elems(table.items)
      ensures forall i | 0 <= i < |table.contents| :: table.contents[i].val != h
    {
      forall i | 0 <= i < |table.contents| ensures table.contents[i].val != h {
        assert table.Recorded(i);
      }
    }

    /** Sets the fields of the records, and with them the table they stand for. */
    method Update(after: Fields, ghost t: PeerTable)
      requires table.Valid() && Stores(table.contents, after, t)
      modifies this`fields, this`peers
      ensures Valid() && fields == after && peers == t
    {
      fields, peers := after, t;
    }

    /** HASH_ADD_STR of a new record, for a peer that is not there. */
    method Enter(a: Addr, room: nat, s: Handle)
      requires Valid() && WellFormed(a) && !Present(peers, a) && s !in Elems(table.items)
      modifies this, table, table.buckets, table.bloomBv, Elems(table.items), s
      ensures Valid() && peers == Add(old(peers), a, Occupant(room, true)) && table.Framed()
      ensures table.items == old(table.items) + [s]
    {
      LookupStored(table.contents, fields, peers, a);
      LookupNone(table.contents, KeyText(a));
      Unused(s);
      AddStored(table.contents, fields, peers, a, s, Occupant(room, true));
      var _ := table.Add(KeyText(a), s);
      Update(fields[s := Occupant(room, true)], Add(peers, a, Occupant(room, true)));
    }

    /** HASH_REPLACE_STR: the peer moves to another room, with a new record and to the end of the table. */
    method Move(a: Addr, room: nat, s: Handle)
      requires Valid() && WellFormed(a) && s !in Elems(table.items)
      modifies this, table, table.buckets, table.bloomBv, Elems(table.items), s
      ensures Valid() && peers == Replace(old(peers), a, Occupant(room, true)) && table.Framed()
    {
      Unused(s);
      ReplaceStored(table.contents, fields, peers, a, s, Occupant(room, true));
      var _ := table.Replace(KeyText(a), s);
      Update(fields[s := Occupant(room, true)], Replace(peers, a, Occupant(room, true)));
    }

    /** HASH_DEL of the peer found, as peer_leave does. */
    method Leave(a: Addr) returns (found: bool)
      requires Valid() && WellFormed(a)
      modifies this, table, table.buckets, table.bloomBv, Elems(table.items)
      ensures found <==> Present(old(peers), a)
      ensures Valid() && peers == Remove(old(peers), a)
    {
      var s := Find(a);
      found := s != null;
      if found {
        table.LookupIsItem(KeyText(a));
        Erase(a, s);
      } else {
        LookupNone(peers, a);
        RemoveAbsent(peers, a);
      }
    }

    method Erase(a: Addr, s: Handle)
      requires Valid() && WellFormed(a) && s in Elems(table.items) && s.key == KeyText(a)
      modifies this, table, table.buckets, Elems(table.items)
      ensures Valid() && peers == Remove(old(peers), a) && table.Removed(s)
    {
      RemoveStored(table.contents, fields, peers, a);
      table.Delete(s);
      Update(fields, Remove(peers, a));
    }

    lemma Different()
      requires table.Listed()
      ensures HandlesDistinct(table.contents)
    {
      if table.head != null {
        ItemsDistinct(table.items, table.head, table.tail);
      }
      forall i, j | 0 <= i < j < |table.contents| ensures table.contents[i].val != table.contents[j].val {
        assert table.Recorded(i) && table.Recorded(j);
      }
    }

    /** mark_peer_alive. */
    method MarkAlive(a: Addr)
      requires Valid() && WellFormed(a)
      modifies this`fields, this`peers
      ensures Valid() && peers == Pong(old(peers), a)
    {
      var s := Find(a);
      if s != null {
        Different();
        PongStored(table.contents, fields, peers, a, s);
        Update(fields[s := fields[s].(alive := true)], Pong(peers, a));
      } else {
        LookupNone(peers, a);
        PongAbsent(peers, a);
      }
    }

    /** send_pings: the walk over the table, which reads each endpoint back from its key. */
    method PingAll() returns (sent: seq<Send>)
      requires Valid()
      modifies this`fields, this`peers
      ensures Valid() && Effect(peers, sent) == SendPings(old(peers))
    {
      sent := [];
      var s := table.head;
      ghost var t, i := peers, 0;
      ghost var n := |table.items|;
      PingedAll(t);
      while s != null
        invariant Valid() && i <= n == |t| && s == At(table.items, i)
        invariant peers == Pinged(t, i) && sent == PingsTo(t, i)
        decreases n - i
      {
        sent := sent + [Send(IpAndPort(s, i), Ping)];
        PingedNext(t, i);
        s := Clear(s, i);
        i := i + 1;
      }
    }

    /** What get_ip and get_port read from the key of a record. */
    function IpAndPort(s: Handle, ghost i: nat): (a: Addr)
      requires Valid() && i < |table.items| && s == table.items[i]
      reads this, table, table.buckets, table.bloomBv, Elems(table.items)
      ensures i < |peers| && a == peers[i].key
    {
      assert table.Recorded(i) && Stored(table.contents[i], fields, peers[i]);
      KeyRoundTrip(peers[i].key);
      Addr(IpOf(s.key), PortOf(s.key))
    }

    method Clear(s: Handle, ghost i: nat) returns (next: Handle?)
      requires Valid() && i < |table.items| == |peers| && s == table.items[i]
      modifies this`fields, this`peers
      ensures Valid() && next == At(table.items, i + 1) && peers == old(peers)[i := Dead(old(peers)[i])]
    {
      Different();
      assert table.Recorded(i) && ItemAt(table.items, i);
      assert Stored(table.contents[i], fields, peers[i]);
      ClearStored(table.contents, fields, peers, i);
      next := s.next;
      Update(fields[s := fields[s].(alive := false)], peers[i := Dead(peers[i])]);
    }
  }
}
