/** A run in which a message reaches a client whose room has changed. */
module ChatExample {
  import opened OrderedMap
  import opened ChatRooms
  import opened ChatSystem

  const A := Addr(1, 1)
  const B := Addr(2, 2)
  const C := Addr(3, 3)

  /** B joins A in room 1, C makes room 2, and B switches to it. A has heard of the first join, but not of the switch. */
  const STALE_RUN := [CreateStep(A), JoinStep(B, 1), CreateStep(C), JoinStep(B, 2),
                      DeliverStep(A), DeliverStep(A), DeliverStep(B), DeliverStep(B)]

  function In(a: Addr, room: nat): Entry<Addr, Occupant>
  {
    Entry(a, Occupant(room, true))
  }

  /** A's message for room 1 still goes to B, who does not display it. */
  lemma {:induction false} StaleListExample(route: Route)
    requires route(A) == A && route(B) == B
    ensures var s := State(STALE_RUN);
            && NeverStrands(STALE_RUN) && |s.queue(B)| == 0 && |s.queue(A)| == 1
            && s.view(A) == View(1, [A, B]) && Lookup(s.peers, B) == Some(Occupant(2, true))
            && Shown(s, A, route) == [A]
  {
    StaleRun(STALE_RUN);
    MessageShown(State(STALE_RUN), route);
  }

  lemma {:induction false} StaleRun(run: seq<Step>)
    requires |run| == 8
    requires run[0] == CreateStep(A) && run[1] == JoinStep(B, 1) && run[2] == CreateStep(C) && run[3] == JoinStep(B, 2)
    requires run[4] == run[5] == DeliverStep(A) && run[6] == run[7] == DeliverStep(B)
    ensures var s := State(run);
            && NeverStrands(run) && |s.queue(B)| == 0 && |s.queue(A)| == 1 && s.view(A) == View(1, [A, B])
            && s.view(B) == View(2, [C, B]) && Lookup(s.peers, B) == Some(Occupant(2, true))
  {
    var s4 := TrackerSteps(run);
    EightSteps(run, s4);
    Deliveries(s4);
    BInTwo();
  }

  lemma {:induction false} TrackerSteps(run: seq<Step>) returns (s4: Sys)
    requires |run| == 8
    requires run[0] == CreateStep(A) && run[1] == JoinStep(B, 1) && run[2] == CreateStep(C) && run[3] == JoinStep(B, 2)
    ensures State(run[..4]) == s4 && NeverStrands(run[..4])
    ensures s4.peers == [In(A, 1), In(C, 2), In(B, 2)] && s4.view == START.view
    ensures s4.queue(A) == [CreateReply(1), RoomUpdate([A, B]), RoomUpdate([A])]
    ensures s4.queue(B) == [JoinReply(1, [A, B]), JoinReply(2, [C, B])]
  {
    var s2 := FirstTwo(run);
    var s3 := NextTwo(run);
    s4 := State(run[..4]);
    FourQueues(s2, s3, s4);
    Three(CreateReply(1), RoomUpdate([A, B]), RoomUpdate([A]));
  }

  lemma {:induction false} NextTwo(run: seq<Step>) returns (s3: Sys)
    requires |run| == 8 && run[2] == CreateStep(C) && run[3] == JoinStep(B, 2) && NeverStrands(run[..2])
    ensures s3 == Next(State(run[..2]), CreateStep(C)) && State(run[..4]) == Next(s3, JoinStep(B, 2)) && NeverStrands(run[..4])
  {
    s3 := State(run[..3]);
    NthStep(run, 2, 3);
    NthStep(run, 3, 4);
  }

  lemma {:induction false} Three(p: Packet, q: Packet, r: Packet)
    ensures [p, q] + [r] == [p, q, r]
  {
  }

  lemma {:induction false} FirstTwo(run: seq<Step>) returns (s2: Sys)
    requires |run| == 8 && run[0] == CreateStep(A) && run[1] == JoinStep(B, 1)
    ensures State(run[..2]) == s2 && NeverStrands(run[..2])
    ensures s2.peers == [In(A, 1), In(B, 1)] && s2.view == START.view
    ensures s2.queue(A) == [CreateReply(1), RoomUpdate([A, B])] && s2.queue(B) == [JoinReply(1, [A, B])]
  {
    assert run[..0] == [];
    NthStep(run, 0, 1);
    NthStep(run, 1, 2);
    s2 := State(run[..2]);
    TwoQueues(State(run[..1]), s2);
  }

  lemma {:induction false} BInTwo()
    ensures Lookup([In(A, 1), In(C, 2), In(B, 2)], B) == Some(Occupant(2, true))
  {
    var t := [In(A, 1), In(C, 2), In(B, 2)];
    assert t[1..] == [In(C, 2), In(B, 2)] && t[1..][1..] == [In(B, 2)];
    assert Lookup(t[1..][1..], B) == Some(Occupant(2, true)) && Lookup(t[1..], B) == Some(Occupant(2, true));
  }

  lemma {:induction false} MessageShown(s: Sys, route: Route)
    requires route(A) == A && route(B) == B && s.view(A) == View(1, [A, B]) && s.view(B) == View(2, [C, B])
    ensures Shown(s, A, route) == [A]
  {
    assert [A, B][1..] == [B] && [B][1..] == [];
    assert Reached(route, [B]) == [B] && Reached(route, [A, B]) == [A, B];
    assert ShownAt(s, 1, [B]) == [] && ShownAt(s, 1, [A, B]) == [A];
  }

  /** A step of the tracker puts its packets behind those that wait. */
  lemma {:induction false} Queued(s: Sys, step: Step, t: PeerTable, sends: seq<Send>)
    requires !step.DeliverStep? && EffectOf(s.peers, step) == Effect(t, sends)
    ensures var n := Next(s, step);
            n.peers == t && n.view == s.view && forall x :: n.queue(x) == s.queue(x) + PacketsFor(sends, x)
  {
  }

  lemma {:induction false} TwoQueues(s1: Sys, s2: Sys)
    requires s1 == Next(START, CreateStep(A)) && s2 == Next(s1, JoinStep(B, 1))
    ensures s2.peers == [In(A, 1), In(B, 1)] && s2.view == START.view
    ensures s2.queue(A) == [CreateReply(1), RoomUpdate([A, B])] && s2.queue(B) == [JoinReply(1, [A, B])]
  {
    FirstCreate();
    FirstJoin();
    Queued(START, CreateStep(A), [In(A, 1)], [Send(A, CreateReply(1))]);
    Queued(s1, JoinStep(B, 1), [In(A, 1), In(B, 1)], [Send(A, RoomUpdate([A, B])), Send(B, JoinReply(1, [A, B]))]);
    OneSend(Send(A, CreateReply(1)));
    TwoSends(Send(A, RoomUpdate([A, B])), Send(B, JoinReply(1, [A, B])));
  }

  lemma {:induction false} FourQueues(s2: Sys, s3: Sys, s4: Sys)
    requires s2.peers == [In(A, 1), In(B, 1)] && s3 == Next(s2, CreateStep(C)) && s4 == Next(s3, JoinStep(B, 2))
    ensures s4.peers == [In(A, 1), In(C, 2), In(B, 2)] && s4.view == s2.view
    ensures s4.queue(A) == s2.queue(A) + [RoomUpdate([A])] && s4.queue(B) == s2.queue(B) + [JoinReply(2, [C, B])]
  {
    SecondCreate();
    Switch();
    Queued(s2, CreateStep(C), [In(A, 1), In(B, 1), In(C, 2)], [Send(C, CreateReply(2))]);
    Queued(s3, JoinStep(B, 2), [In(A, 1), In(C, 2), In(B, 2)],
           [Send(C, RoomUpdate([C, B])), Send(B, JoinReply(2, [C, B])), Send(A, RoomUpdate([A]))]);
    OneSend(Send(C, CreateReply(2)));
    ThreeSends(Send(C, RoomUpdate([C, B])), Send(B, JoinReply(2, [C, B])), Send(A, RoomUpdate([A])));
  }

  lemma {:induction false} OneSend(p: Send)
    ensures forall x :: PacketsFor([p], x) == if p.to == x then [p.pkt] else []
  {
    assert [p][1..] == [];
  }

  lemma {:induction false} TwoSends(p: Send, q: Send)
    ensures forall x :: PacketsFor([p, q], x) == (if p.to == x then [p.pkt] else []) + if q.to == x then [q.pkt] else []
  {
    OneSend(q);
    assert [p, q][1..] == [q];
  }

  lemma {:induction false} ThreeSends(p: Send, q: Send, r: Send)
    ensures forall x :: PacketsFor([p, q, r], x) ==
              (if p.to == x then [p.pkt] else []) + ((if q.to == x then [q.pkt] else []) + if r.to == x then [r.pkt] else [])
  {
    TwoSends(q, r);
    assert [p, q, r][1..] == [q, r];
  }

  lemma {:induction false} Deliveries(s: Sys)
    requires s.view == START.view
    requires s.queue(A) == [CreateReply(1), RoomUpdate([A, B]), RoomUpdate([A])]
    requires s.queue(B) == [JoinReply(1, [A, B]), JoinReply(2, [C, B])]
    ensures var n := Delivered(s);
            n.peers == s.peers && n.queue(A) == [RoomUpdate([A])] && n.queue(B) == [] &&
            n.view(A) == View(1, [A, B]) && n.view(B) == View(2, [C, B])
  {
    var a1 := Next(s, DeliverStep(A));
    var a2 := Next(a1, DeliverStep(A));
    var b1 := Next(a2, DeliverStep(B));
    assert a1.view(A) == View(1, [SelfAddr(A)]) && a1.queue(A) == [RoomUpdate([A, B]), RoomUpdate([A])];
    assert a2.view(A) == View(1, [A, B]) && a2.queue(A) == [RoomUpdate([A])] && a2.queue(B) == s.queue(B);
    assert b1.view(B) == View(1, [A, B]) && b1.queue(B) == [JoinReply(2, [C, B])];
  }

  ghost function Delivered(s: Sys): Sys
  {
    Next(Next(Next(Next(s, DeliverStep(A)), DeliverStep(A)), DeliverStep(B)), DeliverStep(B))
  }

  lemma {:induction false} NthStep(run: seq<Step>, n: nat, m: nat)
    requires n < |run| && m == n + 1
    ensures State(run[..m]) == Next(State(run[..n]), run[n])
    ensures NeverStrands(run[..m]) <==> NeverStrands(run[..n]) && !Strands(State(run[..n]).peers, run[n])
  {
    assert run[..m][..n] == run[..n];
  }

  lemma {:induction false} EightSteps(run: seq<Step>, s4: Sys)
    requires |run| == 8 && State(run[..4]) == s4 && NeverStrands(run[..4])
    requires run[4] == run[5] == DeliverStep(A) && run[6] == run[7] == DeliverStep(B)
    ensures State(run) == Delivered(s4) && NeverStrands(run)
  {
    NthStep(run, 4, 5);
    NthStep(run, 5, 6);
    NthStep(run, 6, 7);
    NthStep(run, 7, 8);
    assert run[..8] == run;
  }

  lemma {:induction false} FirstCreate()
    ensures CreateRoom([], A) == Effect([In(A, 1)], [Send(A, CreateReply(1))])
  {
    assert Rooms([]) == {} && FreeFrom([], 1) == 1;
  }

  lemma {:induction false} FirstJoin()
    ensures Join([In(A, 1)], B, 1) ==
            Effect([In(A, 1), In(B, 1)], [Send(A, RoomUpdate([A, B])), Send(B, JoinReply(1, [A, B]))])
  {
    var t: PeerTable := [In(A, 1)];
    var u := Add(t, B, Occupant(1, true));
    assert u == [In(A, 1), In(B, 1)] && t[1..] == [] && u[1..] == [In(B, 1)] && [In(B, 1)][1..] == [];
    assert Members(t, 1) == [A] && Lookup(t, B) == None;
    assert Members([In(B, 1)], 1) == [B] && Members(u, 1) == [A, B];
    TwoListed(B, 1, A, B);
  }

  lemma {:induction false} SecondCreate()
    ensures CreateRoom([In(A, 1), In(B, 1)], C) ==
            Effect([In(A, 1), In(B, 1), In(C, 2)], [Send(C, CreateReply(2))])
  {
    var t := [In(A, 1), In(B, 1)];
    assert t[0].val.room == 1;
    assert Rooms(t) == {1};
    assert FreeFrom(t, 2) == 2 && FreeFrom(t, 1) == 2;
    assert t[1..] == [In(B, 1)] && [In(B, 1)][1..] == [];
    assert Lookup(t[1..], C) == None && Lookup(t, C) == None;
    assert Add(t, C, Occupant(2, true)) == [In(A, 1), In(B, 1), In(C, 2)];
  }

  lemma {:induction false} Switch()
    ensures Join([In(A, 1), In(B, 1), In(C, 2)], B, 2) ==
            Effect([In(A, 1), In(C, 2), In(B, 2)],
                   [Send(C, RoomUpdate([C, B])), Send(B, JoinReply(2, [C, B])), Send(A, RoomUpdate([A]))])
  {
    BeforeSwitch([In(A, 1), In(B, 1), In(C, 2)]);
    AfterSwitch([In(A, 1), In(C, 2), In(B, 2)]);
    TwoListed(B, 2, C, B);
    OneListed(NOBODY, 1, A);
  }

  lemma {:induction false} BeforeSwitch(t: PeerTable)
    requires t == [In(A, 1), In(B, 1), In(C, 2)]
    ensures Members(t, 2) == [C] && Lookup(t, B) == Some(Occupant(1, true))
    ensures Replace(t, B, Occupant(2, true)) == [In(A, 1), In(C, 2), In(B, 2)]
  {
    assert t[1..] == [In(B, 1), In(C, 2)] && t[1..][1..] == [In(C, 2)] && [In(C, 2)][1..] == [];
    assert Members([In(C, 2)], 2) == [C] && Members(t[1..], 2) == [C];
    assert Lookup(t[1..], B) == Some(Occupant(1, true));
    assert Remove(t[1..], B) == [In(C, 2)] && Remove(t, B) == [In(A, 1), In(C, 2)];
  }

  lemma {:induction false} AfterSwitch(u: PeerTable)
    requires u == [In(A, 1), In(C, 2), In(B, 2)]
    ensures Members(u, 2) == [C, B] && Members(u, 1) == [A]
  {
    assert u[1..] == [In(C, 2), In(B, 2)] && u[1..][1..] == [In(B, 2)] && [In(B, 2)][1..] == [];
    assert Members([In(B, 2)], 2) == [B] && Members(u[1..], 2) == [C, B];
    assert Members([In(B, 2)], 1) == [] && Members(u[1..], 1) == [];
  }

  lemma {:induction false} OneListed(joiner: Addr, room: nat, a: Addr)
    requires !Addressable(joiner)
    ensures PeerListTo(joiner, room, [a], [a]) == [Send(a, RoomUpdate([a]))]
  {
    assert [a][1..] == [];
  }

  /** A joiner that is last on the list. */
  lemma {:induction false} TwoListed(joiner: Addr, room: nat, a: Addr, b: Addr)
    requires Addressable(joiner) && a != joiner == b
    ensures PeerListTo(joiner, room, [a, b], [a, b]) == [Send(a, RoomUpdate([a, b])), Send(b, JoinReply(room, [a, b]))]
  {
    assert [a, b][1..] == [b] && [b][1..] == [];
    assert PeerListTo(joiner, room, [a, b], [b]) == [Send(b, JoinReply(room, [a, b]))];
  }
}
