/**
 The tracker's handlers as the source writes them: loops over the peer list and updates in place. Each is
 proved to do what ChatRooms says. A send appends to `sent`.
 */
module ChatTracker {
  import opened OrderedMap
  import opened Sequences
  import opened ChatRooms
  import opened ChatSafety

  /** The members of a room that a walk has met before entry i. */
  ghost function Met(t: PeerTable, i: nat, room: nat): seq<Addr>
    requires i <= |t|
  {
    Members(t[..i], room)
  }

  lemma MetNext(t: PeerTable, i: nat, room: nat)
    requires i < |t|
    ensures Met(t, i + 1, room) == if t[i].val.room == room then Met(t, i, room) + [t[i].key] else Met(t, i, room)
    ensures |Met(t, i + 1, room)| <= |Members(t, room)|
  {
    assert t[..i + 1] == t[..i] + [t[i]];
    MembersConcat(t[..i], [t[i]], room);
    assert t == t[..i + 1] + t[i + 1..];
    MembersConcat(t[..i + 1], t[i + 1..], room);
  }

  lemma MetAll(t: PeerTable, room: nat)
    ensures Met(t, 0, room) == [] && Met(t, |t|, room) == Members(t, room)
  {
    assert t[..|t|] == t;
  }

  lemma {:induction false} PeerListToConcat(joiner: Addr, room: nat, list: seq<Addr>, p: seq<Addr>, q: seq<Addr>)
    ensures PeerListTo(joiner, room, list, p + q) == PeerListTo(joiner, room, list, p) + PeerListTo(joiner, room, list, q)
  {
    if |p| == 0 {
      assert p + q == q;
    } else {
      assert (p + q)[1..] == p[1..] + q;
      PeerListToConcat(joiner, room, list, p[1..], q);
    }
  }

  lemma RoomsPrefix(t: PeerTable, i: nat)
    requires i < |t|
    ensures Rooms(t[..i + 1]) == Rooms(t[..i]) + {t[i].val.room}
    ensures Rooms(t[..i + 1]) <= Rooms(t)
  {
    var p, q := t[..i], t[..i + 1];
    assert q[i] == t[i];
    forall j | 0 <= j < i ensures p[j] == t[j] == q[j] {
    }
    forall r | r in Rooms(q) ensures r in Rooms(p) + {t[i].val.room} && r in Rooms(t) {
      var j :| 0 <= j < |q| && q[j].val.room == r;
      assert j < i ==> p[j].val.room == r;
      assert t[j].val.room == r;
    }
    forall r | r in Rooms(p) ensures r in Rooms(q) {
      var j :| 0 <= j < |p| && p[j].val.room == r;
      assert q[j].val.room == r;
    }
  }

  class Tracker {
    var peers: PeerTable
    var sent: seq<Send>

    constructor ()
      ensures peers == [] && sent == []
    {
      peers, sent := [], [];
    }

    /** The distinct rooms, counted in five slots that are never overrun. */
    method GetTotalNumRooms() returns (total: nat)
      requires Safe(peers)
      ensures total == |Rooms(peers)| <= MAX_NUM_ROOMS
    {
      total := 0;
      var roomFound := new nat[MAX_NUM_ROOMS](_ => 0);
      var rooms := new nat[MAX_NUM_ROOMS](_ => 0);
      RoomsBounded(peers);
      for i := 0 to |peers|
        invariant total <= MAX_NUM_ROOMS
        invariant Distinct(rooms[..total]) && Elems(rooms[..total]) == Rooms(peers[..i])
        invariant forall k | 0 <= k < MAX_NUM_ROOMS :: roomFound[k] == 1 <==> k < total
      {
        var room := peers[i].val.room;
        var found := FindRoom(rooms, roomFound, total, room);
        RoomsPrefix(peers, i);
        if !found {
          RoomForOne(peers, i, rooms[..total]);
          NoteRoom(rooms, roomFound, total, room);
          total := total + 1;
        }
      }
      assert peers[..|peers|] == peers;
      DistinctSize(rooms[..total]);
    }

    static method NoteRoom(rooms: array<nat>, roomFound: array<nat>, total: nat, room: nat)
      requires rooms.Length == roomFound.Length == MAX_NUM_ROOMS && total < MAX_NUM_ROOMS && rooms != roomFound
      requires forall k | 0 <= k < MAX_NUM_ROOMS :: roomFound[k] == 1 <==> k < total
      requires Distinct(rooms[..total]) && room !in Elems(rooms[..total])
      modifies rooms, roomFound
      ensures Distinct(rooms[..total + 1]) && Elems(rooms[..total + 1]) == Elems(old(rooms[..total])) + {room}
      ensures forall k | 0 <= k < MAX_NUM_ROOMS :: roomFound[k] == 1 <==> k < total + 1
    {
      DistinctAppend(rooms[..total], room);
      roomFound[total] := 1;
      rooms[total] := room;
      assert rooms[..total + 1] == old(rooms[..total]) + [room];
    }

    static method FindRoom(rooms: array<nat>, roomFound: array<nat>, ghost total: nat, room: nat) returns (found: bool)
      requires rooms.Length == roomFound.Length == MAX_NUM_ROOMS && total <= MAX_NUM_ROOMS
      requires forall k | 0 <= k < MAX_NUM_ROOMS :: roomFound[k] == 1 <==> k < total
      ensures found <==> room in Elems(rooms[..total])
    {
      found := false;
      var a := 0;
      while a < MAX_NUM_ROOMS
        invariant a <= MAX_NUM_ROOMS && !found
        invariant forall k | 0 <= k < a && k < total :: rooms[k] != room
      {
        if rooms[a] == room && roomFound[a] == 1 {
          assert rooms[..total][a] == room;
          return true;
        }
        a := a + 1;
      }
      assert forall k | 0 <= k < |rooms[..total]| :: rooms[..total][k] == rooms[k];
    }

    static lemma DistinctAppend(s: seq<nat>, r: nat)
      requires Distinct(s) && r !in Elems(s)
      ensures Elems(s + [r]) == Elems(s) + {r} && Distinct(s + [r])
    {
      ElemsAppend(s, r);
      forall i | 0 <= i < |s| ensures s[i] in Elems(s) {
      }
    }

    /** A room not yet counted finds a slot: five distinct rooms are all there can be. */
    static lemma RoomForOne(t: PeerTable, i: nat, seen: seq<nat>)
      requires Safe(t) && i < |t| && Distinct(seen) && Elems(seen) == Rooms(t[..i]) && t[i].val.room !in Elems(seen)
      ensures |seen| < MAX_NUM_ROOMS
    {
      RoomsBounded(t);
      RoomsPrefix(t, i);
      DistinctSize(seen);
      SubsetSize(Rooms(t[..i + 1]), Rooms(t));
      assert |Elems(seen) + {t[i].val.room}| == |seen| + 1;
    }

    method SendError(a: Addr, request: char, error: char)
      modifies this`sent
      ensures sent == old(sent) + [Send(a, ErrorReply(request, error))]
    {
      sent := sent + [Send(a, ErrorReply(request, error))];
    }

    method RoomTaken(room: nat) returns (taken: bool)
      ensures taken <==> room in Rooms(peers)
    {
      taken := false;
      var i := 0;
      while i < |peers|
        invariant i <= |peers| && !taken
        invariant forall k | 0 <= k < i :: peers[k].val.room != room
      {
        if peers[i].val.room == room {
          taken := true;
          break;
        }
        i := i + 1;
      }
    }

    method PeerCreateRoom(a: Addr)
      requires Safe(peers)
      modifies this
      ensures peers == CreateRoom(old(peers), a).peers && sent == old(sent) + CreateRoom(old(peers), a).sends
      ensures Safe(peers)
    {
      CreateRoomSafe(peers, a);
      var numberOfRooms := GetTotalNumRooms();
      if numberOfRooms >= MAX_NUM_ROOMS {
        SendError(a, 'c', 'o');
        return;
      }
      var room := 1;
      while room < MAX_NUM_ROOMS * 2
        invariant 1 <= room <= MAX_NUM_ROOMS * 2 && FreeFrom(peers, room) == FreeFrom(peers, 1)
        invariant peers == old(peers) && sent == old(sent)
      {
        var taken := RoomTaken(room);
        if !taken {
          break;
        }
        room := room + 1;
      }
      if Lookup(peers, a).Some? {
        SendError(a, 'c', 'e');
      } else {
        peers := Add(peers, a, Occupant(room, true));
        sent := sent + [Send(a, CreateReply(room))];
      }
    }

    method CountRoom(room: nat) returns (numInRoom: nat)
      ensures numInRoom == |Members(peers, room)|
    {
      MetAll(peers, room);
      numInRoom := 0;
      for i := 0 to |peers|
        invariant numInRoom == |Met(peers, i, room)|
      {
        MetNext(peers, i, room);
        if peers[i].val.room == room {
          numInRoom := numInRoom + 1;
        }
      }
    }

    /** The payload: an array with one slot for each member, filled in table order. */
    method ListRoom(room: nat, numInRoom: nat) returns (payload: seq<Addr>)
      requires numInRoom == |Members(peers, room)|
      ensures payload == Members(peers, room)
    {
      MetAll(peers, room);
      var list := new Addr[numInRoom](_ => NOBODY);
      var a := 0;
      for i := 0 to |peers|
        invariant a == |Met(peers, i, room)| <= numInRoom && list[..a] == Met(peers, i, room)
      {
        MetNext(peers, i, room);
        if peers[i].val.room == room {
          list[a] := peers[i].key;
          a := a + 1;
        }
      }
      payload := list[..];
    }

    /** peer_list. */
    method SendPeerList(joiner: Addr, room: nat)
      modifies this`sent
      ensures sent == old(sent) + PeerList(peers, joiner, room)
    {
      var numInRoom := CountRoom(room);
      var payload := ListRoom(room, numInRoom);
      MetAll(peers, room);
      for i := 0 to |peers|
        invariant sent == old(sent) + PeerListTo(joiner, room, payload, Met(peers, i, room))
      {
        MetNext(peers, i, room);
        if peers[i].val.room == room {
          var a := peers[i].key;
          OneMore(joiner, room, payload, Met(peers, i, room), a, old(sent));
          if joiner.port != -1 && joiner.ip != 0 && a.ip == joiner.ip && a.port == joiner.port {
            sent := sent + [Send(a, JoinReply(room, payload))];
          } else {
            sent := sent + [Send(a, RoomUpdate(payload))];
          }
        }
      }
    }

    static lemma OneMore(joiner: Addr, room: nat, list: seq<Addr>, to: seq<Addr>, a: Addr, before: seq<Send>)
      ensures before + PeerListTo(joiner, room, list, to + [a]) ==
              before + PeerListTo(joiner, room, list, to)
              + [Send(a, if Addressable(joiner) && a == joiner then JoinReply(room, list) else RoomUpdate(list))]
    {
      PeerListToConcat(joiner, room, list, to, [a]);
      assert [a][1..] == [];
    }

    /** The counting loop of peer_join, which stops at the fifth member. */
    method CountMembers(room: nat) returns (full: bool, roomExists: bool)
      ensures full <==> |Members(peers, room)| >= MAX_ROOM_SIZE
      ensures !full ==> (roomExists <==> |Members(peers, room)| > 0)
    {
      MetAll(peers, room);
      var r := 0;
      full, roomExists := false, false;
      var i := 0;
      while i < |peers|
        invariant i <= |peers| && r == |Met(peers, i, room)| < MAX_ROOM_SIZE && !full
        invariant roomExists <==> r > 0
      {
        MetNext(peers, i, room);
        if peers[i].val.room == room {
          r := r + 1;
          if r >= MAX_ROOM_SIZE {
            full := true;
            return;
          }
          roomExists := true;
        }
        i := i + 1;
      }
    }

    method PeerJoin(a: Addr, room: nat)
      requires Safe(peers)
      modifies this
      ensures peers == Join(old(peers), a, room).peers && sent == old(sent) + Join(old(peers), a, room).sends
      ensures Safe(peers)
    {
      JoinSafe(peers, a, room);
      var full, roomExists := CountMembers(room);
      if full {
        SendError(a, 'j', 'f');
        return;
      }
      if !roomExists {
        SendError(a, 'j', 'e');
        return;
      }
      var s := Lookup(peers, a);
      if s.Some? && s.value.room == room {
        SendError(a, 'j', 'a');
        return;
      }
      if s.None? {
        peers := Add(peers, a, Occupant(room, true));
        SendPeerList(a, room);
      } else {
        var oldRoom := s.value.room;
        peers := Replace(peers, a, Occupant(room, true));
        SendPeerList(a, room);
        SendPeerList(NOBODY, oldRoom);
      }
    }

    method PeerLeave(a: Addr)
      modifies this
      ensures peers == Leave(old(peers), a).peers && sent == old(sent) + Leave(old(peers), a).sends
    {
      var s := Lookup(peers, a);
      if s.Some? {
        var leftRoom := s.value.room;
        peers := Remove(peers, a);
        sent := sent + [Send(a, LeaveReply)];
        SendPeerList(NOBODY, leftRoom);
      } else {
        SendError(a, 'l', 'e');
      }
    }

    method SendPingsToAll()
      modifies this
      ensures peers == SendPings(old(peers)).peers && sent == old(sent) + SendPings(old(peers)).sends
    {
      ghost var t := peers;
      ghost var e := SendPings(t);
      PingsAt(t);
      for i := 0 to |peers|
        invariant |peers| == |t| == |e.peers| == |e.sends|
        invariant forall k | 0 <= k < |t| :: peers[k] == if k < i then e.peers[k] else t[k]
        invariant sent == old(sent) + e.sends[..i]
      {
        peers := peers[i := peers[i].(val := peers[i].val.(alive := false))];
        sent := sent + [Send(peers[i].key, Ping)];
      }
    }

    method MarkPeerAlive(a: Addr)
      modifies this`peers
      ensures peers == Pong(old(peers), a)
    {
      var i := 0;
      while i < |peers|
        invariant i <= |peers| && peers == old(peers) && forall k | 0 <= k < i :: peers[k].key != a
      {
        if peers[i].key == a {
          PongAt(peers, a, i);
          peers := peers[i := peers[i].(val := peers[i].val.(alive := true))];
          return;
        }
        i := i + 1;
      }
      PongAbsent(peers, a);
    }

    /** The next link is taken before the peer is removed. */
    method DeleteDeadPeers()
      modifies this
      ensures peers == Sweep(old(peers), 0).peers && sent == old(sent) + Sweep(old(peers), 0).sends
    {
      var i := 0;
      while i < |peers|
        invariant i <= |peers|
        invariant Sweep(peers, i).peers == Sweep(old(peers), 0).peers
        invariant sent + Sweep(peers, i).sends == old(sent) + Sweep(old(peers), 0).sends
        decreases |peers| - i
      {
        if peers[i].val.alive {
          i := i + 1;
        } else {
          LookupSome(peers, i);
          RemoveShortens(peers, peers[i].key);
          PeerLeaveAt(i);
        }
      }
    }

    method PeerLeaveAt(i: nat)
      requires i < |peers| && !peers[i].val.alive
      modifies this
      ensures peers == Remove(old(peers), old(peers)[i].key)
      ensures Sweep(peers, i).peers == Sweep(old(peers), i).peers
      ensures sent + Sweep(peers, i).sends == old(sent) + Sweep(old(peers), i).sends
    {
      LookupSome(peers, i);
      PeerLeave(peers[i].key);
    }
  }
}
