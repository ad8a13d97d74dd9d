/** The client's globals and the handlers that overwrite them, one per packet type. */
module ChatClient {
  import opened OrderedMap
  import opened ChatRooms
  import opened ChatSystem
  import opened ChatMessages
  import opened ChatAnswers

  const PEER_LIST_CAPACITY := 100
  /** Entries of 16 bytes that fit in the 1000 payload bytes of a packet. */
  const MAX_PAYLOAD_ENTRIES := 62

  class Client {
    ghost const me: Addr
    const selfAddr: Addr
    var roomNum: nat
    var peerNum: nat
    const peerList: array<Addr>

    ghost predicate Valid()
      reads this
    {
      peerList.Length == PEER_LIST_CAPACITY && peerNum <= PEER_LIST_CAPACITY && selfAddr == SelfAddr(me)
    }

    ghost function Seen(): View
      requires Valid()
      reads this, peerList
    {
      View(roomNum, peerList[..peerNum])
    }

    constructor (ghost me: Addr, port: int)
      requires port == me.port
      ensures Valid() && this.me == me && Seen() == OUTSIDE && fresh(peerList)
    {
      this.me, selfAddr := me, Addr(0, port);
      roomNum, peerNum := 0, 0;
      peerList := new Addr[PEER_LIST_CAPACITY](_ => NOBODY);
    }

    method StoreList(members: seq<Addr>)
      requires Valid() && |members| <= MAX_PAYLOAD_ENTRIES
      modifies this`peerNum, peerList
      ensures Valid() && peerList[..peerNum] == members
    {
      peerNum := |members|;
      forall i | 0 <= i < |members| {
        peerList[i] := members[i];
      }
    }

    method CreateRoomReply(room: nat)
      requires Valid()
      modifies this, peerList
      ensures Valid() && Seen() == View(room, [SelfAddr(me)])
    {
      roomNum := room;
      peerNum := 1;
      peerList[0] := selfAddr;
    }

    method JoinRoomReply(room: nat, members: seq<Addr>)
      requires Valid() && |members| <= MAX_PAYLOAD_ENTRIES
      modifies this, peerList
      ensures Valid() && Seen() == if |members| == 0 then OUTSIDE else View(room, members)
    {
      roomNum := room;
      peerNum := |members|;
      if peerNum <= 0 {
        roomNum := 0;
        peerNum := 0;
      } else {
        StoreList(members);
      }
    }

    method UserConnectionUpdates(members: seq<Addr>)
      requires Valid() && |members| <= MAX_PAYLOAD_ENTRIES
      modifies this`peerNum, peerList
      ensures Valid() && Seen() == if |members| == 0 then old(Seen()) else old(Seen()).(members := members)
    {
      var newPeerNum := |members|;
      if newPeerNum > 0 {
        StoreList(members);
      }
    }

    /** The error branches of the three reply handlers: what is printed. */
    static method ReadError(request: char, error: char) returns (told: Told)
      ensures told == ToldBy(request, error)
    {
      told := Unspecified;
      match request {
        case 'c' =>
          if error == 'o' {
            told := OutOfRooms;
          } else if error == 'e' {
            told := AlreadyInARoom;
          }
        case 'j' =>
          if error == 'f' {
            told := RoomIsFull;
          } else if error == 'e' {
            told := NoSuchRoom;
          } else if error == 'a' {
            told := AlreadyInThatRoom;
          }
        case 'l' =>
          if error == 'e' {
            told := InNoRoom;
          }
        case _ =>
      }
    }

    /** receive_packet: the handler of each packet type does what the system model says, and prints the error of a refusal. */
    method ReceivePacket(p: Packet) returns (told: Option<Told>)
      requires Valid()
      requires (p.JoinReply? || p.RoomUpdate?) ==> |p.members| <= MAX_PAYLOAD_ENTRIES
      modifies this, peerList
      ensures Valid() && Seen() == Apply(me, old(Seen()), p)
      ensures told == if p.ErrorReply? then Some(ToldBy(p.request, p.error)) else None
    {
      told := None;
      match p {
        case CreateReply(room) => CreateRoomReply(room);
        case JoinReply(room, members) => JoinRoomReply(room, members);
        case LeaveReply =>
          roomNum := 0;
          peerNum := 0;
        case RoomUpdate(members) => UserConnectionUpdates(members);
        case ErrorReply(request, error) =>
          var message := ReadError(request, error);
          told := Some(message);
        case Ping =>
      }
    }

    /** The addresses send_message sends to, in order, and the room in the header. */
    method SendMessage() returns (to: seq<Addr>, room: nat)
      requires Valid()
      ensures to == Seen().members && room == Seen().room
    {
      to, room := [], roomNum;
      for i := 0 to peerNum
        invariant to == peerList[..i]
      {
        to := to + [peerList[i]];
      }
    }

    /** receive_message: a message is shown exactly if it names this client's own room. If the client has heard all that the
        tracker sent it, that is the room in which the tracker has it. */
    method ReceiveMessage(room: nat, ghost s: Sys) returns (shown: bool)
      requires Valid() && s.view(me) == Seen()
      ensures shown <==> roomNum == room
      ensures Safe(s.peers) && Agrees(me, Seen(), s.peers) ==>
                (shown <==> match Lookup(s.peers, me) case None => room == 0 case Some(o) => o.room == room)
      ensures ShownAt(s, room, [me]) == if shown then [me] else []
    {
      shown := room == roomNum;
      assert [me][1..] == [];
      if Safe(s.peers) && Agrees(me, Seen(), s.peers) {
        InRoomIff(s.peers, me, Seen(), room);
      }
    }
  }
}
