/** Bounds that every request keeps: room numbers, room count and room sizes. */
module ChatSafety {
  import opened OrderedMap
  import opened ChatRooms

  /** The same endpoints in the same rooms in the same order; only `alive` may differ. */
  ghost predicate SamePlaces(t: PeerTable, u: PeerTable)
  {
    |t| == |u| && forall i | 0 <= i < |t| :: t[i].key == u[i].key && t[i].val.room == u[i].val.room
  }

  lemma {:induction false} SamePlacesSameMembers(t: PeerTable, u: PeerTable, room: nat)
    requires SamePlaces(t, u)
    ensures Members(t, room) == Members(u, room)
  {
    if |t| != 0 {
      SamePlacesSameMembers(t[1..], u[1..], room);
    }
  }

  lemma SamePlacesSafe(t: PeerTable, u: PeerTable)
    requires SamePlaces(t, u) && Safe(t)
    ensures Safe(u)
  {
    forall r: nat ensures |Members(u, r)| <= MAX_ROOM_SIZE {
      SamePlacesSameMembers(t, u, r);
    }
  }

  lemma {:induction false} SamePlacesLookup(t: PeerTable, u: PeerTable, a: Addr)
    requires SamePlaces(t, u)
    ensures Lookup(t, a).Some? <==> Lookup(u, a).Some?
    ensures Lookup(t, a).Some? ==> Lookup(u, a).value.room == Lookup(t, a).value.room
  {
    if |t| != 0 {
      SamePlacesLookup(t[1..], u[1..], a);
    }
  }

  function Dead(e: Entry<Addr, Occupant>): Entry<Addr, Occupant>
  {
    e.(val := e.val.(alive := false))
  }

  function Alive(e: Entry<Addr, Occupant>): Entry<Addr, Occupant>
  {
    e.(val := e.val.(alive := true))
  }

  lemma {:induction false} PingsAt(t: PeerTable)
    ensures var e := SendPings(t);
            |e.peers| == |t| == |e.sends| &&
            forall i | 0 <= i < |t| ::
              e.peers[i] == Dead(t[i]) && e.sends[i] == Send(t[i].key, Ping)
  {
    if |t| != 0 {
      PingsAt(t[1..]);
    }
  }

  lemma {:induction false} PingsKeepPlaces(t: PeerTable)
    ensures SamePlaces(t, SendPings(t).peers)
    ensures forall i | 0 <= i < |t| :: !SendPings(t).peers[i].val.alive
  {
    if |t| != 0 {
      PingsKeepPlaces(t[1..]);
    }
  }

  /** mark_peer_alive sets the flag of the one entry with the key. */
  lemma {:induction false} PongAt(t: PeerTable, a: Addr, i: nat)
    requires i < |t| && t[i].key == a && forall k | 0 <= k < i :: t[k].key != a
    ensures Pong(t, a) == t[i := Alive(t[i])]
  {
    if i > 0 {
      PongAt(t[1..], a, i - 1);
    }
  }

  lemma {:induction false} PongAbsent(t: PeerTable, a: Addr)
    requires Absent(t, a)
    ensures Pong(t, a) == t
  {
    if |t| > 0 {
      PongAbsent(t[1..], a);
    }
  }

  lemma {:induction false} PongKeepsPlaces(t: PeerTable, a: Addr)
    ensures SamePlaces(t, Pong(t, a))
  {
    if |t| != 0 {
      PongKeepsPlaces(t[1..], a);
    }
  }

  lemma AddSafe(t: PeerTable, a: Addr, o: Occupant)
    requires Safe(t) && Absent(t, a) && 1 <= o.room <= MAX_NUM_ROOMS && |Members(t, o.room)| < MAX_ROOM_SIZE
    ensures Safe(Add(t, a, o))
  {
    forall r: nat ensures |Members(Add(t, a, o), r)| <= MAX_ROOM_SIZE {
      MembersOfAdd(t, a, o, r);
    }
  }

  lemma RemoveSafe(t: PeerTable, a: Addr)
    requires Safe(t)
    ensures Safe(Remove(t, a)) && Absent(Remove(t, a), a)
  {
    RemoveKeeps(t, a);
    forall r: nat ensures |Members(Remove(t, a), r)| <= MAX_ROOM_SIZE {
      MembersOfRemove(t, a, r);
    }
    if i: nat :| i < |t| && t[i].key == a {
      RemoveAt(t, i);
    } else {
      RemoveAbsent(t, a);
    }
  }

  lemma OccupiedRoomInRange(t: PeerTable, room: nat)
    requires Safe(t) && |Members(t, room)| > 0
    ensures 1 <= room <= MAX_NUM_ROOMS
  {
    MembersEmptyIff(t, room);
    var i :| 0 <= i < |t| && t[i].val.room == room;
  }

  lemma CreateRoomSafe(t: PeerTable, a: Addr)
    requires Safe(t)
    ensures Safe(CreateRoom(t, a).peers)
  {
    if |Rooms(t)| < MAX_NUM_ROOMS && !Present(t, a) {
      LeastFreeRoom(t);
      LookupNone(t, a);
      MembersEmptyIff(t, FreeFrom(t, 1));
      AddSafe(t, a, Occupant(FreeFrom(t, 1), true));
    }
  }

  lemma JoinSafe(t: PeerTable, a: Addr, room: nat)
    requires Safe(t)
    ensures Safe(Join(t, a, room).peers)
  {
    if 0 < |Members(t, room)| < MAX_ROOM_SIZE {
      OccupiedRoomInRange(t, room);
      match Lookup(t, a) {
        case None =>
          LookupNone(t, a);
          AddSafe(t, a, Occupant(room, true));
        case Some(o) =>
          if o.room != room {
            RemoveSafe(t, a);
            MembersOfRemove(t, a, room);
            AddSafe(Remove(t, a), a, Occupant(room, true));
          }
      }
    }
  }

  lemma LeaveSafe(t: PeerTable, a: Addr)
    requires Safe(t)
    ensures Safe(Leave(t, a).peers)
  {
    RemoveSafe(t, a);
  }

  lemma {:induction false} SweepSafe(t: PeerTable, i: nat)
    requires Safe(t)
    ensures Safe(Sweep(t, i).peers)
    decreases |t| - i
  {
    if i < |t| {
      if t[i].val.alive {
        SweepSafe(t, i + 1);
      } else {
        LookupSome(t, i);
        RemoveShortens(t, t[i].key);
        LeaveSafe(t, t[i].key);
        SweepSafe(Leave(t, t[i].key).peers, i);
      }
    }
  }

  /** The peer_list payload: sizeof(struct sockaddr_in) is 16 and the packet holds 1000 bytes. */
  lemma PayloadFits(t: PeerTable, room: nat)
    requires Safe(t)
    ensures 16 * |Members(t, room)| <= 1000
  {
  }

  /** A sweep keeps exactly the living, in order. */
  function Living(t: PeerTable): PeerTable
  {
    if |t| == 0 then [] else (if t[0].val.alive then [t[0]] else []) + Living(t[1..])
  }

  lemma {:induction false} SweepKeepsLiving(t: PeerTable, i: nat)
    requires KeysDistinct(t) && i <= |t|
    ensures Sweep(t, i).peers == t[..i] + Living(t[i..])
    decreases |t| - i
  {
    if i < |t| {
      if t[i].val.alive {
        SweepKeepsLiving(t, i + 1);
        assert t[i..][1..] == t[i + 1..];
        assert t[..i + 1] == t[..i] + [t[i]];
      } else {
        var u := Remove(t, t[i].key);
        LookupSome(t, i);
        RemoveAt(t, i);
        RemoveKeeps(t, t[i].key);
        SweepKeepsLiving(u, i);
        assert u[..i] == t[..i] && u[i..] == t[i + 1..] && t[i..][1..] == t[i + 1..];
      }
    }
  }
}
