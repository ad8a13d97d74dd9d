/**
 What each request does to the chat tracker's peer table and which packets it sends. The table is the
 insertion-ordered map that the hash table implements, keyed by endpoint.
 */
module ChatRooms {
  import opened OrderedMap
  import opened Sequences

  const MAX_NUM_ROOMS := 5
  const MAX_ROOM_SIZE := 5

  /** An IPv4 address as an unsigned 32-bit number and a port as a signed 16-bit one. */
  datatype Addr = Addr(ip: int, port: int)

  datatype Occupant = Occupant(room: nat, alive: bool)

  type PeerTable = seq<Entry<Addr, Occupant>>

  datatype Packet =
    | CreateReply(room: nat)
    | JoinReply(room: nat, members: seq<Addr>)
    | LeaveReply
    | RoomUpdate(members: seq<Addr>)
    | ErrorReply(request: char, error: char)
    | Ping

  datatype Send = Send(to: Addr, pkt: Packet)

  datatype Effect = Effect(peers: PeerTable, sends: seq<Send>)

  /** The arguments of peer_list when nobody joins. */
  const NOBODY := Addr(0, -1)

  /** peer_list recognises a joiner only by an ip other than 0 and a port other than -1. */
  predicate Addressable(a: Addr)
  {
    a.port != -1 && a.ip != 0
  }

  ghost function Rooms(t: PeerTable): set<nat>
  {
    set i | 0 <= i < |t| :: t[i].val.room
  }

  /** The members of a room in table order. */
  function Members(t: PeerTable, room: nat): seq<Addr>
  {
    if |t| == 0 then []
    else (if t[0].val.room == room then [t[0].key] else []) + Members(t[1..], room)
  }

  function Present(t: PeerTable, a: Addr): bool
  {
    Lookup(t, a).Some?
  }

  // ----- the requests

  /** peer_list: the room's list goes to every member; the joiner's copy is the reply to its request. */
  function PeerListTo(joiner: Addr, room: nat, list: seq<Addr>, to: seq<Addr>): seq<Send>
  {
    if |to| == 0 then []
    else
      [Send(to[0], if Addressable(joiner) && to[0] == joiner then JoinReply(room, list) else RoomUpdate(list))]
      + PeerListTo(joiner, room, list, to[1..])
  }

  function PeerList(t: PeerTable, joiner: Addr, room: nat): seq<Send>
  {
    PeerListTo(joiner, room, Members(t, room), Members(t, room))
  }

  /** The search of peer_create_room, which gives up at twice the number of rooms. */
  ghost function FreeFrom(t: PeerTable, room: nat): nat
    decreases MAX_NUM_ROOMS * 2 - room
  {
    if room >= MAX_NUM_ROOMS * 2 || room !in Rooms(t) then room else FreeFrom(t, room + 1)
  }

  ghost function CreateRoom(t: PeerTable, a: Addr): Effect
  {
    if |Rooms(t)| >= MAX_NUM_ROOMS then Effect(t, [Send(a, ErrorReply('c', 'o'))])
    else if Present(t, a) then Effect(t, [Send(a, ErrorReply('c', 'e'))])
    else
      var room := FreeFrom(t, 1);
      Effect(Add(t, a, Occupant(room, true)), [Send(a, CreateReply(room))])
  }

  function Join(t: PeerTable, a: Addr, room: nat): Effect
  {
    if |Members(t, room)| >= MAX_ROOM_SIZE then Effect(t, [Send(a, ErrorReply('j', 'f'))])
    else if |Members(t, room)| == 0 then Effect(t, [Send(a, ErrorReply('j', 'e'))])
    else match Lookup(t, a)
      case None =>
        var t' := Add(t, a, Occupant(room, true));
        Effect(t', PeerList(t', a, room))
      case Some(o) =>
        if o.room == room then Effect(t, [Send(a, ErrorReply('j', 'a'))])
        else
          var t' := Replace(t, a, Occupant(room, true));
          Effect(t', PeerList(t', a, room) + PeerList(t', NOBODY, o.room))
  }

  function Leave(t: PeerTable, a: Addr): Effect
  {
    match Lookup(t, a)
    case None => Effect(t, [Send(a, ErrorReply('l', 'e'))])
    case Some(o) =>
      var t' := Remove(t, a);
      Effect(t', [Send(a, LeaveReply)] + PeerList(t', NOBODY, o.room))
  }

  /** send_pings: every peer is presumed dead until it answers. */
  function SendPings(t: PeerTable): Effect
  {
    if |t| == 0 then Effect([], [])
    else
      var rest := SendPings(t[1..]);
      Effect([t[0].(val := t[0].val.(alive := false))] + rest.peers, [Send(t[0].key, Ping)] + rest.sends)
  }

  /** mark_peer_alive. */
  function Pong(t: PeerTable, a: Addr): PeerTable
  {
    if |t| == 0 then []
    else if t[0].key == a then [t[0].(val := t[0].val.(alive := true))] + t[1..]
    else [t[0]] + Pong(t[1..], a)
  }

  /** delete_dead_peers from position i on. */
  function Sweep(t: PeerTable, i: nat): Effect
    decreases |t| - i
  {
    if i >= |t| then Effect(t, [])
    else if t[i].val.alive then Sweep(t, i + 1)
    else
      var left := Leave(t, t[i].key);
      LookupSome(t, i);
      RemoveShortens(t, t[i].key);
      var rest := Sweep(left.peers, i);
      Effect(rest.peers, left.sends + rest.sends)
  }

  lemma {:induction false} RemoveShortens(t: PeerTable, a: Addr)
    requires Present(t, a)
    ensures |Remove(t, a)| == |t| - 1
  {
    if t[0].key != a {
      RemoveShortens(t[1..], a);
    }
  }

  lemma {:induction false} LookupSome(t: PeerTable, i: nat)
    requires i < |t|
    ensures Present(t, t[i].key)
  {
    LookupNone(t, t[i].key);
  }

  // ----- what every reachable table satisfies

  /** One entry per endpoint, rooms numbered 1 to 5, at most 5 members in each. */
  ghost predicate Safe(t: PeerTable)
  {
    && KeysDistinct(t)
    && (forall i | 0 <= i < |t| :: 1 <= t[i].val.room <= MAX_NUM_ROOMS)
    && (forall r: nat :: |Members(t, r)| <= MAX_ROOM_SIZE)
  }

  lemma {:induction false} MembersConcat(s: PeerTable, t: PeerTable, room: nat)
    ensures Members(s + t, room) == Members(s, room) + Members(t, room)
  {
    if |s| == 0 {
      assert s + t == t;
    } else {
      assert (s + t)[1..] == s[1..] + t;
      MembersConcat(s[1..], t, room);
      ConcatAssoc(if s[0].val.room == room then [s[0].key] else [], Members(s[1..], room), Members(t, room));
    }
  }

  lemma MembersOfAdd(t: PeerTable, a: Addr, o: Occupant, room: nat)
    ensures Members(Add(t, a, o), room) == Members(t, room) + if o.room == room then [a] else []
  {
    MembersConcat(t, [Entry(a, o)], room);
  }

  /** Membership: an address is listed for a room exactly when its entry says so. */
  lemma {:induction false} InMembers(t: PeerTable, a: Addr, room: nat)
    requires KeysDistinct(t)
    ensures a in Members(t, room) <==> Lookup(t, a).Some? && Lookup(t, a).value.room == room
  {
    if |t| != 0 {
      InMembers(t[1..], a, room);
      if t[0].key == a {
        LookupNone(t[1..], a);
      }
    }
  }

  lemma {:induction false} MembersEmptyIff(t: PeerTable, room: nat)
    ensures |Members(t, room)| == 0 <==> room !in Rooms(t)
  {
    if |t| != 0 {
      MembersEmptyIff(t[1..], room);
      assert forall i | 0 < i < |t| :: t[i] == t[1..][i - 1];
      assert forall i | 0 <= i < |t| - 1 :: t[1..][i] == t[i + 1];
      assert t[0].val.room in Rooms(t);
      forall r | r in Rooms(t[1..]) ensures r in Rooms(t) {
        var i :| 0 <= i < |t[1..]| && t[1..][i].val.room == r;
        assert t[i + 1].val.room == r;
      }
    }
  }

  /** Removing an endpoint takes it out of its room's list and leaves every other list alone. */
  function Drop(s: seq<Addr>, a: Addr): seq<Addr>
  {
    if |s| == 0 then [] else if s[0] == a then s[1..] else [s[0]] + Drop(s[1..], a)
  }

  lemma {:induction false} MembersOfRemove(t: PeerTable, a: Addr, room: nat)
    requires KeysDistinct(t)
    ensures Members(Remove(t, a), room) ==
            if Lookup(t, a).Some? && Lookup(t, a).value.room == room then Drop(Members(t, room), a) else Members(t, room)
    ensures Lookup(t, a).Some? && Lookup(t, a).value.room == room ==>
              |Members(Remove(t, a), room)| == |Members(t, room)| - 1
  {
    if |t| != 0 {
      var tail := Members(t[1..], room);
      assert ([t[0].key] + tail)[1..] == tail && [] + tail == tail;
      if t[0].key != a {
        MembersOfRemove(t[1..], a, room);
        MembersOfCons(t[0], Remove(t[1..], a), room);
        assert Members(t, room) == if t[0].val.room == room then [t[0].key] + tail else tail;
      }
    }
  }

  lemma MembersOfCons(e: Entry<Addr, Occupant>, t: PeerTable, room: nat)
    ensures Members([e] + t, room) == if e.val.room == room then [e.key] + Members(t, room) else Members(t, room)
  {
    assert ([e] + t)[1..] == t;
  }

  lemma {:induction false} MembersDistinct(t: PeerTable, room: nat)
    requires KeysDistinct(t)
    ensures forall i, j | 0 <= i < j < |Members(t, room)| :: Members(t, room)[i] != Members(t, room)[j]
  {
    if |t| != 0 {
      MembersDistinct(t[1..], room);
      InMembers(t[1..], t[0].key, room);
      LookupNone(t[1..], t[0].key);
    }
  }

  // ----- room numbers

  lemma RoomsBounded(t: PeerTable)
    requires Safe(t)
    ensures Rooms(t) <= {1, 2, 3, 4, 5} && |Rooms(t)| <= MAX_NUM_ROOMS
  {
    SubsetSize(Rooms(t), {1, 2, 3, 4, 5});
  }

  lemma SubsetSize<T>(a: set<T>, b: set<T>)
    requires a <= b
    ensures |a| <= |b| && (|a| == |b| ==> a == b)
  {
    if b - a == {} {
      assert a == b;
    } else {
      var x :| x in b - a;
      SubsetSize(a, b - {x});
    }
  }

  lemma {:induction false} FreeFromIsLeast(t: PeerTable, room: nat)
    requires room <= MAX_NUM_ROOMS * 2
    ensures room <= FreeFrom(t, room) <= MAX_NUM_ROOMS * 2
    ensures FreeFrom(t, room) < MAX_NUM_ROOMS * 2 ==> FreeFrom(t, room) !in Rooms(t)
    ensures forall r | room <= r < FreeFrom(t, room) :: r in Rooms(t)
    decreases MAX_NUM_ROOMS * 2 - room
  {
    if room < MAX_NUM_ROOMS * 2 && room in Rooms(t) {
      FreeFromIsLeast(t, room + 1);
    }
  }

  /** Below the room limit there is a free number in 1..5, and the search returns the least one. */
  lemma LeastFreeRoom(t: PeerTable)
    requires Safe(t) && |Rooms(t)| < MAX_NUM_ROOMS
    ensures 1 <= FreeFrom(t, 1) <= MAX_NUM_ROOMS && FreeFrom(t, 1) !in Rooms(t)
    ensures forall r | 1 <= r < FreeFrom(t, 1) :: r in Rooms(t)
  {
    FreeFromIsLeast(t, 1);
    if FreeFrom(t, 1) > MAX_NUM_ROOMS {
      assert {1, 2, 3, 4, 5} <= Rooms(t);
      SubsetSize({1, 2, 3, 4, 5}, Rooms(t));
    }
  }
}
