/** What a client is told about its requests: refusals are true, and come exactly when there are grounds. */
module ChatAnswers {
  import opened OrderedMap
  import opened ChatRooms
  import opened ChatSafety
  import opened ChatSystem

  /** The error messages that a client prints. */
  datatype Told = OutOfRooms | AlreadyInARoom | RoomIsFull | NoSuchRoom | AlreadyInThatRoom | InNoRoom | Unspecified

  /** The message for the error field of a reply to a create, a join or a leave. */
  function ToldBy(request: char, error: char): Told
  {
    if request == 'c' then if error == 'o' then OutOfRooms else if error == 'e' then AlreadyInARoom else Unspecified
    else if request == 'j' then
      if error == 'f' then RoomIsFull else if error == 'e' then NoSuchRoom
      else if error == 'a' then AlreadyInThatRoom else Unspecified
    else if request == 'l' then if error == 'e' then InNoRoom else Unspecified
    else Unspecified
  }

  /** That what a client is told is so. */
  ghost predicate True(told: Told, t: PeerTable, a: Addr, room: nat)
  {
    match told
    case OutOfRooms => forall r: nat | 1 <= r <= 5 :: |Members(t, r)| > 0
    case AlreadyInARoom => exists r: nat :: a in Members(t, r)
    case RoomIsFull => |Members(t, room)| == 5
    case NoSuchRoom => |Members(t, room)| == 0
    case AlreadyInThatRoom => a in Members(t, room)
    case InNoRoom => forall r: nat :: a !in Members(t, r)
    case Unspecified => false
  }

  /** The effect of a refusal: one error reply to the sender, and nothing changes. */
  ghost predicate RefusedWith(e: Effect, t: PeerTable, a: Addr, told: Told)
  {
    e.peers == t && |e.sends| == 1 && e.sends[0].to == a && e.sends[0].pkt.ErrorReply? &&
    ToldBy(e.sends[0].pkt.request, e.sends[0].pkt.error) == told
  }

  ghost predicate Errs(e: Effect)
  {
    exists i :: 0 <= i < |e.sends| && e.sends[i].pkt.ErrorReply?
  }

  lemma {:induction false} ListsAreNoErrors(joiner: Addr, room: nat, list: seq<Addr>, to: seq<Addr>)
    ensures forall i | 0 <= i < |PeerListTo(joiner, room, list, to)| :: !PeerListTo(joiner, room, list, to)[i].pkt.ErrorReply?
  {
    if |to| > 0 {
      ListsAreNoErrors(joiner, room, list, to[1..]);
    }
  }

  lemma {:induction false} PresentIff(t: PeerTable, a: Addr)
    requires KeysDistinct(t)
    ensures Present(t, a) <==> True(AlreadyInARoom, t, a, 0)
    ensures Present(t, a) <==> !True(InNoRoom, t, a, 0)
  {
    forall r: nat ensures a in Members(t, r) <==> Present(t, a) && Lookup(t, a).value.room == r {
      InMembers(t, a, r);
    }
    if Present(t, a) {
      assert a in Members(t, Lookup(t, a).value.room);
    }
  }

  lemma {:induction false} FiveIff(s: set<nat>)
    requires s <= {1, 2, 3, 4, 5}
    ensures |s| >= 5 <==> forall r: nat | 1 <= r <= 5 :: r in s
  {
    var all: set<nat> := {1, 2, 3, 4, 5};
    SubsetSize(s, all);
    if forall r: nat | 1 <= r <= 5 :: r in s {
      assert s == all;
    }
  }

  lemma {:induction false} OutOfRoomsIff(t: PeerTable, a: Addr)
    requires Safe(t)
    ensures |Rooms(t)| >= MAX_NUM_ROOMS <==> True(OutOfRooms, t, a, 0)
  {
    RoomsBounded(t);
    FiveIff(Rooms(t));
    forall r: nat ensures |Members(t, r)| > 0 <==> r in Rooms(t) {
      MembersEmptyIff(t, r);
    }
  }

  /** Main result for a create: it is refused, truthfully, exactly if all five rooms are in use or the sender is in one. Else the
      sender is told the least number of a room without members, and is its one member, at the end of the table. */
  lemma {:induction false} CreateAnswer(t: PeerTable, a: Addr)
    requires Safe(t)
    ensures var e := CreateRoom(t, a);
            if True(OutOfRooms, t, a, 0) then RefusedWith(e, t, a, OutOfRooms)
            else if True(AlreadyInARoom, t, a, 0) then RefusedWith(e, t, a, AlreadyInARoom)
            else exists r: nat ::
                   && 1 <= r <= 5 && |Members(t, r)| == 0 && (forall q: nat | 1 <= q < r :: |Members(t, q)| > 0)
                   && e == Effect(t + [Entry(a, Occupant(r, true))], [Send(a, CreateReply(r))])
  {
    OutOfRoomsIff(t, a);
    PresentIff(t, a);
    if |Rooms(t)| < MAX_NUM_ROOMS && !Present(t, a) {
      LeastIsEmpty(t);
      assert CreateRoom(t, a) == Effect(t + [Entry(a, Occupant(FreeFrom(t, 1), true))], [Send(a, CreateReply(FreeFrom(t, 1)))]);
    }
  }

  lemma {:induction false} LeastIsEmpty(t: PeerTable)
    requires Safe(t) && |Rooms(t)| < MAX_NUM_ROOMS
    ensures var r := FreeFrom(t, 1);
            1 <= r <= 5 && |Members(t, r)| == 0 && forall q: nat | 1 <= q < r :: |Members(t, q)| > 0
  {
    LeastFreeRoom(t);
    forall q: nat ensures |Members(t, q)| == 0 <==> q !in Rooms(t) {
      MembersEmptyIff(t, q);
    }
  }

  /** Main result for a join: it is refused, truthfully, exactly if the room is full, has no member, or has the sender. */
  lemma {:induction false} JoinAnswer(t: PeerTable, a: Addr, room: nat)
    requires Safe(t)
    ensures var e := Join(t, a, room);
            if True(RoomIsFull, t, a, room) then RefusedWith(e, t, a, RoomIsFull)
            else if True(NoSuchRoom, t, a, room) then RefusedWith(e, t, a, NoSuchRoom)
            else if True(AlreadyInThatRoom, t, a, room) then RefusedWith(e, t, a, AlreadyInThatRoom)
            else !Errs(e)
  {
    InMembers(t, a, room);
    if 0 < |Members(t, room)| < MAX_ROOM_SIZE && a !in Members(t, room) {
      var u := Join(t, a, room).peers;
      ListsAreNoErrors(a, room, Members(u, room), Members(u, room));
      if Present(t, a) {
        var from := Lookup(t, a).value.room;
        ListsAreNoErrors(NOBODY, from, Members(u, from), Members(u, from));
      }
    }
  }

  /** Main result for a leave: it is refused, truthfully, exactly if the sender is in no room. */
  lemma {:induction false} LeaveAnswer(t: PeerTable, a: Addr)
    requires Safe(t)
    ensures var e := Leave(t, a);
            if True(InNoRoom, t, a, 0) then RefusedWith(e, t, a, InNoRoom) else !Errs(e)
  {
    PresentIff(t, a);
    if Present(t, a) {
      var u, from := Remove(t, a), Lookup(t, a).value.room;
      ListsAreNoErrors(NOBODY, from, Members(u, from), Members(u, from));
      var sends := Leave(t, a).sends;
      assert sends == [Send(a, LeaveReply)] + PeerList(u, NOBODY, from);
      forall i | 0 <= i < |sends| ensures !sends[i].pkt.ErrorReply? {
        assert i > 0 ==> sends[i] == PeerList(u, NOBODY, from)[i - 1];
      }
    }
  }
}
