/** Who displays a chat message when lists and views are out of date: only members of the room it names. */
module ChatMessages {
  import opened OrderedMap
  import opened ChatRooms
  import opened ChatSafety
  import opened ChatSystem

  // ----- one packet for each client, and nobody outside lists anybody

  /** Every event but a sweep sends each client at most one packet. */
  lemma {:induction false} OnePacket(t: PeerTable, step: Step, a: Addr)
    requires Safe(t) && !step.SweepStep?
    ensures |PacketsFor(EffectOf(t, step).sends, a)| <= 1
  {
    match step {
      case CreateStep(b) => assert EffectOf(t, step).sends[1..] == [];
      case JoinStep(b, room) => OneJoinPacket(t, b, room, a);
      case LeaveStep(b) =>
        if Present(t, b) {
          LeavePackets(t, b, Lookup(t, b).value.room, a);
        } else {
          assert EffectOf(t, step).sends[1..] == [];
        }
      case PingsStep => PingsReach(t, a);
      case PongStep(_) =>
      case DeliverStep(_) =>
    }
  }

  lemma {:induction false} OneJoinPacket(t: PeerTable, b: Addr, room: nat, a: Addr)
    requires Safe(t)
    ensures |PacketsFor(Join(t, b, room).sends, a)| <= 1
  {
    if !JoinSucceeds(t, b, room) {
      assert Join(t, b, room).sends[1..] == [];
    } else if Present(t, b) {
      SwitchPackets(t, b, Lookup(t, b).value.room, room, a);
    } else {
      LookupNone(t, b);
      AddKeeps(t, b, Occupant(room, true));
      PeerListFor(Add(t, b, Occupant(room, true)), b, room, a);
    }
  }

  /** send_pings reaches every peer once, and nobody else. */
  lemma {:induction false} PingsReach(t: PeerTable, a: Addr)
    requires KeysDistinct(t)
    ensures PacketsFor(SendPings(t).sends, a) == if Present(t, a) then [Ping] else []
  {
    if |t| > 0 {
      PingsReach(t[1..], a);
      LookupNone(t[1..], t[0].key);
      assert SendPings(t).sends[1..] == SendPings(t[1..]).sends;
    }
  }

  /** A client in no room has no one on its list. */
  predicate Sane(v: View)
  {
    v.room == 0 ==> v.members == []
  }

  /** So too after each of these packets. */
  ghost predicate SaneThrough(a: Addr, v: View, q: seq<Packet>)
    decreases |q|
  {
    Sane(v) && (|q| > 0 ==> SaneThrough(a, Apply(a, v, q[0]), q[1..]))
  }

  lemma {:induction false} SaneConcat(a: Addr, v: View, q: seq<Packet>, r: seq<Packet>)
    requires SaneThrough(a, v, q) && SaneThrough(a, ApplyAll(a, v, q), r)
    ensures SaneThrough(a, v, q + r)
    decreases |q|
  {
    if |q| == 0 {
      assert q + r == r;
    } else {
      assert (q + r)[1..] == q[1..] + r;
      SaneConcat(a, Apply(a, v, q[0]), q[1..], r);
    }
  }

  lemma {:induction false} AgreeingIsSane(a: Addr, v: View, t: PeerTable)
    requires Safe(t) && Agrees(a, v, t)
    ensures Sane(v)
  {
    if Present(t, a) {
      InMembers(t, a, Lookup(t, a).value.room);
      OccupiedRoomInRange(t, Lookup(t, a).value.room);
    }
  }

  lemma {:induction false} EffectKeepsSane(t: PeerTable, step: Step, a: Addr, v: View)
    requires Safe(t) && !Strands(t, step) && Agrees(a, v, t)
    ensures SaneThrough(a, v, PacketsFor(EffectOf(t, step).sends, a))
  {
    if step.SweepStep? {
      SweepKeepsSane(t, 0, a, v);
    } else {
      EffectKeeps(t, step);
      OnePacket(t, step, a);
      OneKeepsSane(t, EffectOf(t, step), a, v);
    }
  }

  lemma {:induction false} OneKeepsSane(t: PeerTable, e: Effect, a: Addr, v: View)
    requires Safe(t) && Safe(e.peers) && Agrees(a, v, t) && KeepsAgreement(t, e) && |PacketsFor(e.sends, a)| <= 1
    ensures SaneThrough(a, v, PacketsFor(e.sends, a))
  {
    var q := PacketsFor(e.sends, a);
    AgreeingIsSane(a, v, t);
    AgreeingIsSane(a, ApplyAll(a, v, q), e.peers);
    if |q| == 1 {
      assert q[1..] == [];
      assert ApplyAll(a, v, q) == ApplyAll(a, Apply(a, v, q[0]), []) == Apply(a, v, q[0]);
    }
  }

  lemma {:induction false} SweepKeepsSane(t: PeerTable, i: nat, a: Addr, v: View)
    requires Safe(t) && Agrees(a, v, t)
    ensures SaneThrough(a, v, PacketsFor(Sweep(t, i).sends, a))
    decreases |t| - i
  {
    if i >= |t| {
      AgreeingIsSane(a, v, t);
    } else if t[i].val.alive {
      SweepKeepsSane(t, i + 1, a, v);
    } else {
      var e := Leave(t, t[i].key);
      LookupSome(t, i);
      RemoveShortens(t, t[i].key);
      LeaveSafe(t, t[i].key);
      LeaveKeeps(t, t[i].key);
      OnePacket(t, LeaveStep(t[i].key), a);
      OneKeepsSane(t, e, a, v);
      var u := ApplyAll(a, v, PacketsFor(e.sends, a));
      SweepKeepsSane(e.peers, i, a, u);
      PacketsForConcat(e.sends, Sweep(e.peers, i).sends, a);
      SaneConcat(a, v, PacketsFor(e.sends, a), PacketsFor(Sweep(e.peers, i).sends, a));
    }
  }

  /** In a run without stranding joins every view is sane, now and after each packet on its way. */
  lemma {:induction false} RunIsSane(run: seq<Step>, a: Addr)
    requires NeverStrands(run)
    ensures SaneThrough(a, State(run).view(a), State(run).queue(a))
  {
    if |run| > 0 {
      var before, step := run[..|run| - 1], run[|run| - 1];
      var s := State(before);
      RunIsSane(before, a);
      RunIsSafe(before);
      RunAgreesIff(before);
      assert Agrees(a, ApplyAll(a, s.view(a), s.queue(a)), s.peers);
      EffectKeepsSane(s.peers, step, a, ApplyAll(a, s.view(a), s.queue(a)));
      SaneConcat(a, s.view(a), s.queue(a), PacketsFor(EffectOf(s.peers, step).sends, a));
      assert State(run) == Next(s, step);
      assert step.DeliverStep? ==> s.queue(a) + [] == s.queue(a);
    }
  }

  // ----- who displays a message

  /** How often x displays what reached these clients. */
  lemma {:induction false} TimesShown(s: Sys, room: nat, reached: seq<Addr>, x: Addr)
    ensures multiset(ShownAt(s, room, reached))[x] == if s.view(x).room == room then multiset(reached)[x] else 0
  {
    if |reached| > 0 {
      TimesShown(s, room, reached[1..], x);
      assert reached == [reached[0]] + reached[1..];
    }
  }

  lemma {:induction false} Prefix(run: seq<Step>, later: seq<Step>)
    requires NeverStrands(run + later)
    ensures NeverStrands(run)
    decreases |later|
  {
    if |later| == 0 {
      assert run + later == run;
    } else {
      assert (run + later)[..|run + later| - 1] == run + later[..|later| - 1];
      Prefix(run, later[..|later| - 1]);
    }
  }

  /**
   Main result: a message sent after `run` and received, later, by a client whose packets have all arrived is displayed by
   that client exactly if the tracker has it in the room that the message names, once for each time the message reached it.
   The sender's list may be out of date, and so may every other client.
   */
  lemma {:induction false} MessageStaysInRoom(run: seq<Step>, later: seq<Step>, a: Addr, route: Route, x: Addr)
    requires NeverStrands(run + later) && |State(run + later).queue(x)| == 0
    ensures var sent, now := State(run).view(a), State(run + later);
            multiset(ShownAt(now, sent.room, Reached(route, sent.members)))[x] ==
            match Lookup(now.peers, x)
            case None => 0
            case Some(o) => if o.room == sent.room then multiset(Reached(route, sent.members))[x] else 0
  {
    var sent, now := State(run).view(a), State(run + later);
    Prefix(run, later);
    RunIsSane(run, a);
    RunIsSafe(run + later);
    RunAgreesIff(run + later);
    assert Agrees(x, ApplyAll(x, now.view(x), now.queue(x)), now.peers);
    TimesShown(now, sent.room, Reached(route, sent.members), x);
    InRoomIff(now.peers, x, now.view(x), sent.room);
  }

  /** What a client with its packets delivered tests is where the tracker has it. */
  lemma {:induction false} InRoomIff(t: PeerTable, x: Addr, v: View, room: nat)
    requires Safe(t) && Agrees(x, v, t)
    ensures v.room == room <==> match Lookup(t, x) case None => room == 0 case Some(o) => o.room == room
  {
  }
}
