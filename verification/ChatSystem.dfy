/**
 Tracker and clients together: each tracker request is one atomic step, each client has a queue of
 packets that are delivered in order and not lost. Main result: whatever is still in a client's queue,
 applying it brings the client's view to the tracker's current one.
 */
module ChatSystem {
  import opened OrderedMap
  import opened Sequences
  import opened ChatRooms
  import opened ChatSafety

  // ----- the client side

  /** A client's room_num and peer_list[..peer_num]. */
  datatype View = View(room: nat, members: seq<Addr>)

  const OUTSIDE := View(0, [])

  /** The client's own socket is bound to INADDR_ANY; this is how it lists itself after a create. */
  function SelfAddr(a: Addr): Addr
  {
    Addr(0, a.port)
  }

  /** receive_packet on a packet from the tracker, at the client whose address is `me`. */
  function Apply(me: Addr, v: View, p: Packet): View
  {
    match p
    case CreateReply(room) => View(room, [SelfAddr(me)])
    case JoinReply(room, members) => if |members| == 0 then OUTSIDE else View(room, members)
    case LeaveReply => OUTSIDE
    case RoomUpdate(members) => if |members| == 0 then v else v.(members := members)
    case ErrorReply(_, _) => v
    case Ping => v
  }

  function ApplyAll(me: Addr, v: View, q: seq<Packet>): View
    decreases |q|
  {
    if |q| == 0 then v else ApplyAll(me, Apply(me, v, q[0]), q[1..])
  }

  lemma {:induction false} ApplyAllConcat(me: Addr, v: View, q: seq<Packet>, r: seq<Packet>)
    ensures ApplyAll(me, v, q + r) == ApplyAll(me, ApplyAll(me, v, q), r)
    decreases |q|
  {
    if |q| == 0 {
      assert q + r == r;
    } else {
      assert (q + r)[1..] == q[1..] + r;
      ApplyAllConcat(me, Apply(me, v, q[0]), q[1..], r);
    }
  }

  /** The packets of `sends` addressed to `a`, in order. */
  function PacketsFor(sends: seq<Send>, a: Addr): seq<Packet>
  {
    if |sends| == 0 then [] else (if sends[0].to == a then [sends[0].pkt] else []) + PacketsFor(sends[1..], a)
  }

  lemma {:induction false} PacketsForConcat(s: seq<Send>, t: seq<Send>, a: Addr)
    ensures PacketsFor(s + t, a) == PacketsFor(s, a) + PacketsFor(t, a)
  {
    if |s| == 0 {
      assert s + t == t;
    } else {
      assert (s + t)[1..] == s[1..] + t;
      PacketsForConcat(s[1..], t, a);
      ConcatAssoc(if s[0].to == a then [s[0].pkt] else [], PacketsFor(s[1..], a), PacketsFor(t, a));
    }
  }

  // ----- agreement

  /** `v` is the tracker's idea of where `a` is and with whom, except for a creator's name for itself. */
  ghost predicate Agrees(a: Addr, v: View, t: PeerTable)
  {
    match Lookup(t, a)
    case None => v == OUTSIDE
    case Some(o) =>
      && v.room == o.room
      && (v.members == Members(t, o.room) || (Members(t, o.room) == [a] && v.members == [SelfAddr(a)]))
  }

  /** The packets sent for `a` turn any view that agreed before into one that agrees after. */
  ghost predicate KeepsAgreement(t: PeerTable, e: Effect)
  {
    forall a, v :: Agrees(a, v, t) ==> Agrees(a, ApplyAll(a, v, PacketsFor(e.sends, a)), e.peers)
  }

  /** What peer_list sends to one address: nothing outside the room, one packet inside. */
  lemma {:induction false} PeerListPackets(joiner: Addr, room: nat, list: seq<Addr>, to: seq<Addr>, a: Addr)
    requires forall i, j | 0 <= i < j < |to| :: to[i] != to[j]
    ensures PacketsFor(PeerListTo(joiner, room, list, to), a) ==
            if a !in to then []
            else if Addressable(joiner) && a == joiner then [JoinReply(room, list)]
            else [RoomUpdate(list)]
  {
    if |to| != 0 {
      PeerListPackets(joiner, room, list, to[1..], a);
      assert to == [to[0]] + to[1..];
      var s := PeerListTo(joiner, room, list, to);
      assert s[1..] == PeerListTo(joiner, room, list, to[1..]);
    }
  }

  lemma {:induction false} PeerListFor(t: PeerTable, joiner: Addr, room: nat, a: Addr)
    requires KeysDistinct(t)
    ensures PacketsFor(PeerList(t, joiner, room), a) ==
            if !(Lookup(t, a).Some? && Lookup(t, a).value.room == room) then []
            else if Addressable(joiner) && a == joiner then [JoinReply(room, Members(t, room))]
            else [RoomUpdate(Members(t, room))]
  {
    MembersDistinct(t, room);
    InMembers(t, a, room);
    PeerListPackets(joiner, room, Members(t, room), Members(t, room), a);
  }

  // ----- each request keeps agreement

  lemma {:induction false} CreateAgrees(t: PeerTable, a: Addr, b: Addr, v: View)
    requires Safe(t) && Agrees(b, v, t)
    ensures var e := CreateRoom(t, a); Agrees(b, ApplyAll(b, v, PacketsFor(e.sends, b)), e.peers)
  {
    if |Rooms(t)| < MAX_NUM_ROOMS && !Present(t, a) {
      var room := FreeFrom(t, 1);
      LeastFreeRoom(t);
      LookupAdd(t, a, Occupant(room, true), b);
      MembersEmptyIff(t, room);
      MembersOfAdd(t, a, Occupant(room, true), room);
      if b != a && Lookup(t, b).Some? {
        InMembers(t, b, room);
        MembersOfAdd(t, a, Occupant(room, true), Lookup(t, b).value.room);
      }
    }
  }

  lemma {:induction false} JoinAgrees(t: PeerTable, a: Addr, room: nat, b: Addr, v: View)
    requires Safe(t) && Addressable(a) && Agrees(b, v, t)
    ensures var e := Join(t, a, room); Agrees(b, ApplyAll(b, v, PacketsFor(e.sends, b)), e.peers)
  {
    if 0 < |Members(t, room)| < MAX_ROOM_SIZE {
      match Lookup(t, a) {
        case None =>
          EnterAgrees(t, a, room, b, v);
        case Some(o) =>
          if o.room != room {
            SwitchAgrees(t, a, o.room, room, b, v);
          }
      }
    }
  }

  /** A join from outside: the joiner gets the reply, the members an update. */
  lemma {:induction false} EnterAgrees(t: PeerTable, a: Addr, room: nat, b: Addr, v: View)
    requires KeysDistinct(t) && Addressable(a) && Lookup(t, a).None? && |Members(t, room)| > 0
    requires Agrees(b, v, t)
    ensures var u := Add(t, a, Occupant(room, true));
            Agrees(b, ApplyAll(b, v, PacketsFor(PeerList(u, a, room), b)), u)
  {
    var u := Add(t, a, Occupant(room, true));
    EnterPackets(t, a, room, b);
    LookupAdd(t, a, Occupant(room, true), b);
    if b == a {
      InMembers(u, a, room);
    } else if Lookup(t, b).Some? {
      MembersOfAdd(t, a, Occupant(room, true), Lookup(t, b).value.room);
    }
  }

  lemma {:induction false} EnterPackets(t: PeerTable, a: Addr, room: nat, b: Addr)
    requires KeysDistinct(t) && Addressable(a) && Lookup(t, a).None?
    ensures var u := Add(t, a, Occupant(room, true));
            KeysDistinct(u) &&
            PacketsFor(PeerList(u, a, room), b) ==
            if b == a then [JoinReply(room, Members(u, room))]
            else if Lookup(t, b).Some? && Lookup(t, b).value.room == room then [RoomUpdate(Members(u, room))]
            else []
  {
    LookupNone(t, a);
    AddKeeps(t, a, Occupant(room, true));
    LookupAdd(t, a, Occupant(room, true), b);
    PeerListFor(Add(t, a, Occupant(room, true)), a, room, b);
  }

  /** A switch: the new room is told as in a join, the old one gets an update without the switcher. */
  lemma {:induction false} SwitchAgrees(t: PeerTable, a: Addr, from: nat, room: nat, b: Addr, v: View)
    requires KeysDistinct(t) && Addressable(a) && Lookup(t, a).Some? && Lookup(t, a).value.room == from != room
    requires |Members(t, room)| > 0 && Agrees(b, v, t)
    ensures var u := Replace(t, a, Occupant(room, true));
            Agrees(b, ApplyAll(b, v, PacketsFor(PeerList(u, a, room) + PeerList(u, NOBODY, from), b)), u)
  {
    var w := Remove(t, a);
    var u := Replace(t, a, Occupant(room, true));
    SwitchPackets(t, a, from, room, b);
    RemoveKeeps(t, a);
    LookupRemove(t, a, b);
    LookupAdd(w, a, Occupant(room, true), b);
    AddKeeps(w, a, Occupant(room, true));
    if b == a {
      InMembers(u, a, room);
    } else if Lookup(t, b).Some? {
      var r := Lookup(t, b).value.room;
      InMembers(u, b, r);
      if r != room && r != from {
        OtherRoomKeeps(t, a, room, r);
      }
    }
  }

  /** A switch leaves every third room as it is. */
  lemma {:induction false} OtherRoomKeeps(t: PeerTable, a: Addr, room: nat, r: nat)
    requires KeysDistinct(t) && Lookup(t, a).Some? && Lookup(t, a).value.room != r && r != room
    ensures Members(Replace(t, a, Occupant(room, true)), r) == Members(t, r)
  {
    RemoveKeeps(t, a);
    MembersOfRemove(t, a, r);
    MembersOfAdd(Remove(t, a), a, Occupant(room, true), r);
  }

  lemma {:induction false} SwitchPackets(t: PeerTable, a: Addr, from: nat, room: nat, b: Addr)
    requires KeysDistinct(t) && from != room
    ensures var u := Replace(t, a, Occupant(room, true));
            PacketsFor(PeerList(u, a, room) + PeerList(u, NOBODY, from), b) ==
            if b == a then [if Addressable(a) then JoinReply(room, Members(u, room)) else RoomUpdate(Members(u, room))]
            else if Lookup(t, b).Some? && Lookup(t, b).value.room == room then [RoomUpdate(Members(u, room))]
            else if Lookup(t, b).Some? && Lookup(t, b).value.room == from then [RoomUpdate(Members(u, from))]
            else []
  {
    var u := Replace(t, a, Occupant(room, true));
    RemoveKeeps(t, a);
    LookupRemove(t, a, b);
    LookupAdd(Remove(t, a), a, Occupant(room, true), b);
    PacketsForConcat(PeerList(u, a, room), PeerList(u, NOBODY, from), b);
    PeerListFor(u, a, room, b);
    PeerListFor(u, NOBODY, from, b);
  }

  lemma {:induction false} LeaveAgrees(t: PeerTable, a: Addr, b: Addr, v: View)
    requires KeysDistinct(t) && Agrees(b, v, t)
    ensures var e := Leave(t, a); Agrees(b, ApplyAll(b, v, PacketsFor(e.sends, b)), e.peers)
  {
    if o: Occupant :| Lookup(t, a) == Some(o) {
      LeavePackets(t, a, o.room, b);
      LookupRemove(t, a, b);
      RemoveKeeps(t, a);
      if b != a && Lookup(t, b).Some? {
        if Lookup(t, b).value.room == o.room {
          InMembers(Remove(t, a), b, o.room);
        } else {
          MembersOfRemove(t, a, Lookup(t, b).value.room);
        }
      }
    }
  }

  lemma {:induction false} LeavePackets(t: PeerTable, a: Addr, room: nat, b: Addr)
    requires KeysDistinct(t)
    ensures var u := Remove(t, a);
            PacketsFor([Send(a, LeaveReply)] + PeerList(u, NOBODY, room), b) ==
            if b == a then [LeaveReply]
            else if Lookup(t, b).Some? && Lookup(t, b).value.room == room then [RoomUpdate(Members(u, room))]
            else []
  {
    var u := Remove(t, a);
    RemoveKeeps(t, a);
    LookupRemove(t, a, b);
    PacketsForConcat([Send(a, LeaveReply)], PeerList(u, NOBODY, room), b);
    PeerListFor(u, NOBODY, room, b);
  }

  lemma {:induction false} LeaveKeeps(t: PeerTable, a: Addr)
    requires KeysDistinct(t)
    ensures KeepsAgreement(t, Leave(t, a))
  {
    forall b, v | Agrees(b, v, t) ensures Agrees(b, ApplyAll(b, v, PacketsFor(Leave(t, a).sends, b)), Leave(t, a).peers) {
      LeaveAgrees(t, a, b, v);
    }
  }

  lemma {:induction false} InSequence(t: PeerTable, e: Effect, f: Effect)
    requires KeepsAgreement(t, e) && KeepsAgreement(e.peers, f)
    ensures KeepsAgreement(t, Effect(f.peers, e.sends + f.sends))
  {
    forall a, v | Agrees(a, v, t) ensures Agrees(a, ApplyAll(a, v, PacketsFor(e.sends + f.sends, a)), f.peers) {
      PacketsForConcat(e.sends, f.sends, a);
      ApplyAllConcat(a, v, PacketsFor(e.sends, a), PacketsFor(f.sends, a));
    }
  }

  lemma {:induction false} SweepKeeps(t: PeerTable, i: nat)
    requires KeysDistinct(t)
    ensures KeepsAgreement(t, Sweep(t, i))
    decreases |t| - i
  {
    if i < |t| {
      if t[i].val.alive {
        SweepKeeps(t, i + 1);
      } else {
        var e := Leave(t, t[i].key);
        LookupSome(t, i);
        RemoveShortens(t, t[i].key);
        RemoveKeeps(t, t[i].key);
        LeaveKeeps(t, t[i].key);
        SweepKeeps(e.peers, i);
        InSequence(t, e, Sweep(e.peers, i));
      }
    }
  }

  lemma {:induction false} SamePlacesAgrees(t: PeerTable, u: PeerTable, a: Addr, v: View)
    requires SamePlaces(t, u) && Agrees(a, v, t)
    ensures Agrees(a, v, u)
  {
    SamePlacesLookup(t, u, a);
    if Lookup(t, a).Some? {
      SamePlacesSameMembers(t, u, Lookup(t, a).value.room);
    }
  }

  lemma {:induction false} PingsAreIgnored(t: PeerTable, a: Addr, v: View)
    ensures ApplyAll(a, v, PacketsFor(SendPings(t).sends, a)) == v
  {
    if |t| != 0 {
      PingsAreIgnored(t[1..], a, v);
      var s := SendPings(t).sends;
      assert s[1..] == SendPings(t[1..]).sends;
      var q := PacketsFor(s, a);
      if s[0].to == a {
        assert q[0] == Ping && q[1..] == PacketsFor(s[1..], a);
      } else {
        assert q == PacketsFor(s[1..], a);
      }
    }
  }

  /** The room is there, is not full, and the joiner is not in it already. */
  predicate JoinSucceeds(t: PeerTable, a: Addr, room: nat)
  {
    0 < |Members(t, room)| < MAX_ROOM_SIZE && (Lookup(t, a).Some? ==> Lookup(t, a).value.room != room)
  }

  /** Why peer_list needs its joiner to have an ip other than 0 and a port other than -1. */
  lemma {:induction false} JoinKeepsIff(t: PeerTable, a: Addr, room: nat)
    requires Safe(t)
    ensures KeepsAgreement(t, Join(t, a, room)) <==> (a.ip != 0 && a.port != -1) || !JoinSucceeds(t, a, room)
  {
    var e := Join(t, a, room);
    if Addressable(a) {
      forall b, v | Agrees(b, v, t) ensures Agrees(b, ApplyAll(b, v, PacketsFor(e.sends, b)), e.peers) {
        JoinAgrees(t, a, room, b, v);
      }
    } else if JoinSucceeds(t, a, room) {
      JoinerNotTold(t, a, room);
    } else {
      assert e.peers == t && exists c :: e.sends == [Send(a, ErrorReply('j', c))];
      forall b, v | Agrees(b, v, t) ensures Agrees(b, ApplyAll(b, v, PacketsFor(e.sends, b)), e.peers) {
        ErrorsAreIgnored(a, e.sends[0].pkt, b, v);
      }
    }
  }

  lemma {:induction false} ErrorsAreIgnored(a: Addr, p: Packet, b: Addr, v: View)
    requires p.ErrorReply?
    ensures ApplyAll(b, v, PacketsFor([Send(a, p)], b)) == v
  {
  }

  /** A joiner that peer_list does not recognise gets an update instead of a reply and keeps its old room number. */
  lemma {:induction false} StrandedJoiner(t: PeerTable, a: Addr, room: nat, v: View)
    requires Safe(t) && !Addressable(a) && JoinSucceeds(t, a, room) && Agrees(a, v, t)
    ensures var e := Join(t, a, room); !Agrees(a, ApplyAll(a, v, PacketsFor(e.sends, a)), e.peers)
  {
    var u := Join(t, a, room).peers;
    OccupiedRoomInRange(t, room);
    JoinSafe(t, a, room);
    match Lookup(t, a) {
      case None =>
        LookupAdd(t, a, Occupant(room, true), a);
        PeerListFor(u, a, room, a);
      case Some(o) =>
        RemoveKeeps(t, a);
        LookupRemove(t, a, a);
        LookupAdd(Remove(t, a), a, Occupant(room, true), a);
        SwitchPackets(t, a, o.room, room, a);
    }
  }

  lemma {:induction false} JoinerNotTold(t: PeerTable, a: Addr, room: nat)
    requires Safe(t) && !Addressable(a) && JoinSucceeds(t, a, room)
    ensures !KeepsAgreement(t, Join(t, a, room))
  {
    var v := match Lookup(t, a) case None => OUTSIDE case Some(o) => View(o.room, Members(t, o.room));
    assert Agrees(a, v, t);
    StrandedJoiner(t, a, room, v);
  }

  // ----- runs

  /** All tracker events, and the delivery of a client's oldest packet. */
  datatype Step =
    | CreateStep(a: Addr)
    | JoinStep(a: Addr, room: nat)
    | LeaveStep(a: Addr)
    | PongStep(a: Addr)
    | PingsStep
    | SweepStep
    | DeliverStep(a: Addr)

  datatype Sys = Sys(peers: PeerTable, queue: Addr -> seq<Packet>, view: Addr -> View)

  const START := Sys([], _ => [], _ => OUTSIDE)

  ghost function EffectOf(t: PeerTable, step: Step): Effect
  {
    match step
    case CreateStep(a) => CreateRoom(t, a)
    case JoinStep(a, room) => Join(t, a, room)
    case LeaveStep(a) => Leave(t, a)
    case PongStep(a) => Effect(Pong(t, a), [])
    case PingsStep => SendPings(t)
    case SweepStep => Sweep(t, 0)
    case DeliverStep(_) => Effect(t, [])
  }

  ghost function Next(s: Sys, step: Step): Sys
  {
    var e := EffectOf(s.peers, step);
    var t := Sys(e.peers, b => s.queue(b) + PacketsFor(e.sends, b), s.view);
    match step
    case DeliverStep(a) =>
      if |s.queue(a)| == 0 then t
      else
        t.(queue := b => if b == a then s.queue(a)[1..] else s.queue(b),
           view := b => if b == a then Apply(a, s.view(a), s.queue(a)[0]) else s.view(b))
    case _ => t
  }

  /** Tracker, queues and clients after a run. */
  ghost function State(run: seq<Step>): Sys
  {
    if |run| == 0 then START else Next(State(run[..|run| - 1]), run[|run| - 1])
  }

  ghost predicate Agreement(s: Sys)
  {
    forall a :: Agrees(a, ApplyAll(a, s.view(a), s.queue(a)), s.peers)
  }

  lemma {:induction false} EffectKeeps(t: PeerTable, step: Step)
    requires Safe(t) && (step.JoinStep? ==> Addressable(step.a) || !JoinSucceeds(t, step.a, step.room))
    ensures Safe(EffectOf(t, step).peers) && KeepsAgreement(t, EffectOf(t, step))
  {
    match step {
      case CreateStep(a) =>
        CreateRoomSafe(t, a);
        forall b, v | Agrees(b, v, t)
          ensures Agrees(b, ApplyAll(b, v, PacketsFor(CreateRoom(t, a).sends, b)), CreateRoom(t, a).peers) {
          CreateAgrees(t, a, b, v);
        }
      case JoinStep(a, room) =>
        JoinSafe(t, a, room);
        JoinKeepsIff(t, a, room);
      case LeaveStep(a) =>
        LeaveSafe(t, a);
        LeaveKeeps(t, a);
      case PongStep(a) =>
        PongKeepsPlaces(t, a);
        SamePlacesKeep(t, Effect(Pong(t, a), []));
      case PingsStep =>
        PingsKeepPlaces(t);
        forall b, v ensures ApplyAll(b, v, PacketsFor(SendPings(t).sends, b)) == v {
          PingsAreIgnored(t, b, v);
        }
        SamePlacesKeep(t, SendPings(t));
      case SweepStep =>
        SweepSafe(t, 0);
        SweepKeeps(t, 0);
      case DeliverStep(_) =>
        SamePlacesKeep(t, Effect(t, []));
    }
  }

  lemma {:induction false} SamePlacesKeep(t: PeerTable, e: Effect)
    requires Safe(t) && SamePlaces(t, e.peers)
    requires forall b, v :: ApplyAll(b, v, PacketsFor(e.sends, b)) == v
    ensures Safe(e.peers) && KeepsAgreement(t, e)
  {
    SamePlacesSafe(t, e.peers);
    forall b, v | Agrees(b, v, t) ensures Agrees(b, ApplyAll(b, v, PacketsFor(e.sends, b)), e.peers) {
      SamePlacesAgrees(t, e.peers, b, v);
    }
  }

  /** The only step after which a view can go wrong: a join that succeeds from such an address. */
  predicate Strands(t: PeerTable, step: Step)
  {
    step.JoinStep? && JoinSucceeds(t, step.a, step.room) && (step.a.ip == 0 || step.a.port == -1)
  }

  /** Main result, one step: from an agreeing state, agreement survives exactly the other steps. */
  lemma {:induction false} StepAgreesIff(s: Sys, step: Step)
    requires Safe(s.peers) && Agreement(s)
    ensures Agreement(Next(s, step)) <==> !Strands(s.peers, step)
  {
    var t, e := Next(s, step), EffectOf(s.peers, step);
    if Strands(s.peers, step) {
      var a := step.a;
      ApplyAllConcat(a, s.view(a), s.queue(a), PacketsFor(e.sends, a));
      StrandedJoiner(s.peers, a, step.room, ApplyAll(a, s.view(a), s.queue(a)));
      assert !Agrees(a, ApplyAll(a, t.view(a), t.queue(a)), t.peers);
    } else {
      EffectKeeps(s.peers, step);
      forall b ensures Agrees(b, ApplyAll(b, t.view(b), t.queue(b)), t.peers) {
        assert Agrees(b, ApplyAll(b, s.view(b), s.queue(b)), s.peers);
        ApplyAllConcat(b, s.view(b), s.queue(b), PacketsFor(e.sends, b));
      }
    }
  }

  /** Bounds hold in every reachable state, whatever the addresses. */
  lemma {:induction false} RunIsSafe(run: seq<Step>)
    ensures Safe(State(run).peers)
    ensures forall r: nat :: |Members(State(run).peers, r)| <= 5 && (|Members(State(run).peers, r)| > 0 ==> 1 <= r <= 5)
  {
    forall r: nat | |Members(State(run).peers, r)| > 0 && Safe(State(run).peers) ensures 1 <= r <= 5 {
      OccupiedRoomInRange(State(run).peers, r);
    }
    if |run| == 0 {
      forall r: nat ensures |Members([], r)| <= MAX_ROOM_SIZE {
      }
    } else {
      var t, step := State(run[..|run| - 1]).peers, run[|run| - 1];
      RunIsSafe(run[..|run| - 1]);
      if step.JoinStep? {
        JoinSafe(t, step.a, step.room);
      } else {
        EffectKeeps(t, step);
      }
    }
  }

  ghost predicate NeverStrands(run: seq<Step>)
  {
    |run| == 0 ||
    (NeverStrands(run[..|run| - 1]) && !Strands(State(run[..|run| - 1]).peers, run[|run| - 1]))
  }

  ghost predicate AgreesThroughout(run: seq<Step>)
  {
    Agreement(State(run)) && (|run| == 0 || AgreesThroughout(run[..|run| - 1]))
  }

  /** Main result, all runs: every state on the way agrees exactly when no join strands its joiner. */
  lemma {:induction false} RunAgreesIff(run: seq<Step>)
    ensures AgreesThroughout(run) <==> NeverStrands(run)
  {
    if |run| != 0 {
      RunAgreesIff(run[..|run| - 1]);
      RunIsSafe(run[..|run| - 1]);
      if NeverStrands(run[..|run| - 1]) {
        StepAgreesIff(State(run[..|run| - 1]), run[|run| - 1]);
      }
    }
  }

  /** A concrete run that breaks agreement: port 65535 reads as -1 in a short, which peer_list takes for "no joiner". */
  lemma {:induction false} StrandingExample()
    ensures var a, b := Addr(1, 1), Addr(2, -1);
            !Agreement(State([CreateStep(a), JoinStep(b, 1)]))
  {
    var a, b := Addr(1, 1), Addr(2, -1);
    var run, step := [CreateStep(a)], JoinStep(b, 1);
    assert run[..0] == [];
    assert [CreateStep(a), step][..1] == run;
    assert State([]) == START && Rooms([]) == {} && FreeFrom([], 1) == 1;
    assert CreateRoom([], a).peers == [Entry(a, Occupant(1, true))];
    assert State(run) == Next(START, CreateStep(a));
    var t := State(run).peers;
    assert t == [Entry(a, Occupant(1, true))];
    assert Members(t, 1) == [a] by {
      assert t[1..] == [];
    }
    assert Strands(t, step);
    RunAgreesIff(run);
    RunIsSafe(run);
    StepAgreesIff(State(run), step);
  }

  // ----- chat messages

  /** Who displays a message that reached these clients: those whose own room number is the sender's. */
  function ShownAt(s: Sys, room: nat, reached: seq<Addr>): seq<Addr>
  {
    if |reached| == 0 then []
    else (if s.view(reached[0]).room == room then [reached[0]] else []) + ShownAt(s, room, reached[1..])
  }

  /** Where datagrams end up that one client sends: the client that a destination address leads to. */
  type Route = Addr -> Addr

  function Reached(route: Route, to: seq<Addr>): seq<Addr>
  {
    if |to| == 0 then [] else [route(to[0])] + Reached(route, to[1..])
  }

  /** send_message at `a`, received by every client that its list leads to. */
  function Shown(s: Sys, a: Addr, route: Route): seq<Addr>
  {
    ShownAt(s, s.view(a).room, Reached(route, s.view(a).members))
  }

  /** The network delivers what is sent to the address of a peer to that peer. Nothing is said of other addresses, and so
      not of the wildcard address under which a client lists itself after a create. */
  ghost predicate Delivers(route: Route, t: PeerTable)
  {
    forall b | Present(t, b) :: route(b) == b
  }

  ghost predicate Quiet(s: Sys)
  {
    forall a :: |s.queue(a)| == 0
  }

  lemma {:induction false} AllShown(s: Sys, room: nat, to: seq<Addr>)
    requires forall i | 0 <= i < |to| :: s.view(to[i]).room == room
    ensures ShownAt(s, room, to) == to
  {
    if |to| != 0 {
      AllShown(s, room, to[1..]);
      assert to == [to[0]] + to[1..];
    }
  }

  lemma {:induction false} AllReached(route: Route, to: seq<Addr>)
    requires forall i | 0 <= i < |to| :: route(to[i]) == to[i]
    ensures Reached(route, to) == to
  {
    if |to| != 0 {
      AllReached(route, to[1..]);
      assert to == [to[0]] + to[1..];
    }
  }

  /** Main result: with all queues drained, a message from a member that lists its real address is displayed by exactly the
      members of its room, once each and the sender included. */
  lemma {:induction false} MessageReachesRoom(s: Sys, a: Addr, route: Route)
    requires Safe(s.peers) && Agreement(s) && Quiet(s) && Present(s.peers, a) && Delivers(route, s.peers)
    requires a in s.view(a).members
    ensures Shown(s, a, route) == Members(s.peers, Lookup(s.peers, a).value.room)
  {
    var room := Lookup(s.peers, a).value.room;
    var ms := Members(s.peers, room);
    assert Agrees(a, ApplyAll(a, s.view(a), s.queue(a)), s.peers);
    forall i | 0 <= i < |ms| ensures s.view(ms[i]).room == room && route(ms[i]) == ms[i] {
      InMembers(s.peers, ms[i], room);
      assert Agrees(ms[i], ApplyAll(ms[i], s.view(ms[i]), s.queue(ms[i])), s.peers);
    }
    AllReached(route, ms);
    AllShown(s, room, ms);
  }

  /** A member that does not is alone; then its message is displayed by it, and by no one else, exactly if the network leads
      the wildcard address back to the sender. */
  lemma {:induction false} LoneMessageIff(s: Sys, a: Addr, route: Route)
    requires Safe(s.peers) && Agreement(s) && Quiet(s) && Present(s.peers, a)
    requires a !in s.view(a).members
    ensures Members(s.peers, Lookup(s.peers, a).value.room) == [a]
    ensures Shown(s, a, route) == [a] <==> route(SelfAddr(a)) == a
  {
    assert Agrees(a, ApplyAll(a, s.view(a), s.queue(a)), s.peers);
    InMembers(s.peers, a, Lookup(s.peers, a).value.room);
    var me := route(SelfAddr(a));
    assert Reached(route, [SelfAddr(a)]) == [me] by {
      assert [SelfAddr(a)][1..] == [];
    }
    assert ShownAt(s, s.view(a).room, [me]) == if s.view(me).room == s.view(a).room then [me] else [] by {
      assert [me][1..] == [];
    }
  }

  /** That state is reached: a client creates a room and gets the reply. */
  lemma {:induction false} LoneCreator(a: Addr, route: Route)
    requires a.ip != 0
    ensures var s := State([CreateStep(a), DeliverStep(a)]);
            Safe(s.peers) && Agreement(s) && Quiet(s) && Present(s.peers, a) && a !in s.view(a).members &&
            (Shown(s, a, route) == [a] <==> route(SelfAddr(a)) == a)
  {
    var create, deliver := CreateStep(a), DeliverStep(a);
    var run := [create, deliver];
    assert run[..1] == [create] && [create][..0] == [];
    assert State([]) == START && Rooms([]) == {} && FreeFrom([], 1) == 1;
    assert CreateRoom([], a) == Effect([Entry(a, Occupant(1, true))], [Send(a, CreateReply(1))]);
    var s := State([create]);
    assert s == Next(START, create);
    CreateQueues(a);
    assert State(run) == Next(s, deliver);
    RunIsSafe(run);
    assert NeverStrands([]) && NeverStrands([create]) && NeverStrands(run);
    RunAgreesIff(run);
    LoneMessageIff(State(run), a, route);
  }

  lemma {:induction false} CreateQueues(a: Addr)
    ensures forall b :: PacketsFor([Send(a, CreateReply(1))], b) == if b == a then [CreateReply(1)] else []
  {
    forall b ensures PacketsFor([Send(a, CreateReply(1))], b) == if b == a then [CreateReply(1)] else [] {
      assert [Send(a, CreateReply(1))][1..] == [];
    }
  }

  /** Nobody hears a client that is in no room. */
  lemma {:induction false} OutsiderIsSilent(s: Sys, a: Addr, route: Route)
    requires Agreement(s) && Quiet(s) && !Present(s.peers, a)
    ensures Shown(s, a, route) == []
  {
    assert Agrees(a, ApplyAll(a, s.view(a), s.queue(a)), s.peers);
  }

  // ----- liveness bookkeeping

  /** Since the last send_pings, a pong, create, join or switch of `a` was processed successfully. */
  ghost predicate HeardSincePings(run: seq<Step>, a: Addr)
  {
    if |run| == 0 then false
    else
      var t, step, before := State(run[..|run| - 1]).peers, run[|run| - 1], HeardSincePings(run[..|run| - 1], a);
      match step
      case PingsStep => false
      case PongStep(b) => before || (a == b && Present(t, a))
      case CreateStep(b) => before || (a == b && |Rooms(t)| < MAX_NUM_ROOMS && !Present(t, a))
      case JoinStep(b, room) => before || (a == b && JoinSucceeds(t, a, room))
      case _ => before
  }

  ghost predicate AliveIsHeard(t: PeerTable, run: seq<Step>)
  {
    forall a :: Lookup(t, a).Some? ==> Lookup(t, a).value.alive == HeardSincePings(run, a)
  }

  lemma {:induction false} PongLookup(t: PeerTable, a: Addr, b: Addr)
    ensures Lookup(Pong(t, a), b) ==
            if b == a && Lookup(t, b).Some? then Some(Lookup(t, b).value.(alive := true)) else Lookup(t, b)
  {
    if |t| != 0 && t[0].key != a {
      PongLookup(t[1..], a, b);
      assert Pong(t, a)[1..] == Pong(t[1..], a);
    }
  }

  lemma {:induction false} PingsLookup(t: PeerTable, b: Addr)
    ensures Lookup(SendPings(t).peers, b) ==
            if Lookup(t, b).Some? then Some(Lookup(t, b).value.(alive := false)) else None
  {
    if |t| != 0 {
      PingsLookup(t[1..], b);
      assert SendPings(t).peers[1..] == SendPings(t[1..]).peers;
    }
  }

  lemma {:induction false} LivingLookup(t: PeerTable, b: Addr)
    requires KeysDistinct(t)
    ensures Lookup(Living(t), b) == if Lookup(t, b).Some? && Lookup(t, b).value.alive then Lookup(t, b) else None
  {
    if |t| != 0 {
      LivingLookup(t[1..], b);
      LookupNone(t[1..], t[0].key);
      if t[0].val.alive {
        assert Living(t)[1..] == Living(t[1..]);
      } else {
        assert Living(t) == Living(t[1..]);
      }
    }
  }

  /** How each step changes what the table says of `b`. */
  lemma {:induction false} StepLookup(t: PeerTable, step: Step, b: Addr)
    requires Safe(t)
    ensures var now := Lookup(EffectOf(t, step).peers, b);
            match step
            case CreateStep(a) => if a == b && |Rooms(t)| < MAX_NUM_ROOMS && !Present(t, a)
                                  then now.Some? && now.value.alive else now == Lookup(t, b)
            case JoinStep(a, room) => if a == b && JoinSucceeds(t, a, room)
                                      then now == Some(Occupant(room, true)) else now == Lookup(t, b)
            case LeaveStep(a) => now == if a == b then None else Lookup(t, b)
            case PongStep(a) => now == if b == a && Lookup(t, b).Some? then Some(Lookup(t, b).value.(alive := true)) else Lookup(t, b)
            case PingsStep => now == if Lookup(t, b).Some? then Some(Lookup(t, b).value.(alive := false)) else None
            case SweepStep => now == if Lookup(t, b).Some? && Lookup(t, b).value.alive then Lookup(t, b) else None
            case DeliverStep(_) => now == Lookup(t, b)
  {
    match step {
      case CreateStep(a) => LookupAdd(t, a, Occupant(FreeFrom(t, 1), true), b);
      case JoinStep(a, room) =>
        LookupRemove(t, a, b);
        LookupAdd(t, a, Occupant(room, true), b);
        LookupAdd(Remove(t, a), a, Occupant(room, true), b);
      case LeaveStep(a) => LookupRemove(t, a, b);
      case PongStep(a) => PongLookup(t, a, b);
      case PingsStep => PingsLookup(t, b);
      case SweepStep =>
        SweepKeepsLiving(t, 0);
        assert t[..0] + Living(t[0..]) == Living(t);
        LivingLookup(t, b);
      case DeliverStep(_) =>
    }
  }

  /** Over every run, the alive flag of a peer says whether it was heard of since the last pings. */
  lemma {:induction false} AliveIffHeard(run: seq<Step>)
    ensures AliveIsHeard(State(run).peers, run)
  {
    if |run| != 0 {
      var t, step := State(run[..|run| - 1]).peers, run[|run| - 1];
      AliveIffHeard(run[..|run| - 1]);
      RunIsSafe(run[..|run| - 1]);
      forall a | Lookup(State(run).peers, a).Some?
        ensures Lookup(State(run).peers, a).value.alive == HeardSincePings(run, a) {
        StepLookup(t, step, a);
        assert Lookup(t, a).Some? ==> Lookup(t, a).value.alive == HeardSincePings(run[..|run| - 1], a);
      }
    }
  }

  /** A sweep removes a peer exactly when it was not heard of since the last pings. */
  lemma {:induction false} SweepRemovesUnheard(run: seq<Step>, a: Addr)
    ensures Lookup(State(run + [SweepStep]).peers, a) ==
            if Present(State(run).peers, a) && HeardSincePings(run, a) then Lookup(State(run).peers, a) else None
  {
    var run' := run + [SweepStep];
    assert run'[..|run'| - 1] == run;
    RunIsSafe(run);
    AliveIffHeard(run);
    StepLookup(State(run).peers, SweepStep, a);
  }
}
