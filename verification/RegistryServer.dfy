/** The tracker server: a linked list of clients that a "list" request extends, and the buffer it sends back. */
module RegistryServer {
  import opened Bits
  import opened Buffers
  import opened OrderedMap
  import opened Sequences
  import opened Decimal
  import opened CStrings
  import opened Registry

  class Client {
    /** The IP_SIZE bytes at the address that strdup returned. */
    const ip: Slot
    var next: Client?

    constructor (ip: Slot)
      ensures this.ip == ip && next == null
    {
      this.ip, next := ip, null;
    }
  }

  const LIST: CString := [108, 105, 115, 116]
  const JOIN: CString := [106, 111, 105, 110]

  /** What recvMsg hands out: a block of BUFSIZ bytes. */
  type Received = m: Text | |m| == BUFSIZ witness seq(BUFSIZ, _ => 0)

  /** The request for the list: a length that is not zero, and strncmp over four bytes. */
  predicate IsListRequest(msg: Received)
  {
    msg[0] != 0 && msg[1..5] == LIST
  }

  /** buildMsg: the low byte of the length, and the text without its zero. */
  method BuildMsg(msg: CString) returns (data: array<byte>)
    ensures fresh(data) && data[..] == Message(msg)
  {
    data := new byte[|msg| + 1];
    data[0] := |msg| % 256;
    PutNext(data[..], [data[0]], msg);
    Memcpy(data, 1, msg);
    assert data[..] == data[..1 + |msg|];
  }

  function Message(msg: CString): Text
  {
    [|msg| % 256] + msg
  }

  /** The bytes of a message in front of a receive buffer, and what malloc left behind them. */
  ghost predicate Arrives(sent: Text, msg: Received)
  {
    |sent| <= BUFSIZ && msg[..|sent|] == sent
  }

  /** The message that asks for the list is taken for one, whatever lies behind it in the buffer. */
  lemma {:induction false} ListIsAnswered(msg: Received)
    ensures Message(LIST) == [4, 108, 105, 115, 116]
    ensures Arrives(Message(LIST), msg) ==> IsListRequest(msg)
  {
    if Arrives(Message(LIST), msg) {
      assert msg[..5][0] == 4 && msg[1..5] == msg[..5][1..];
    }
  }

  /** The message that joins is not, so the answer that joinTracker waits for never comes; nor is a closed connection. */
  lemma {:induction false} JoinIsNotAnswered(msg: Received)
    ensures Message(JOIN) == [4, 106, 111, 105, 110]
    ensures Arrives(Message(JOIN), msg) ==> !IsListRequest(msg)
    ensures msg[0] == 0 ==> !IsListRequest(msg)
  {
    if Arrives(Message(JOIN), msg) {
      assert msg[..5][1] == 106 && msg[1..5][0] == msg[..5][1];
    }
  }

  function SlotsOf(nodes: seq<Client>): (r: seq<Slot>)
    ensures |r| == |nodes| && forall i | 0 <= i < |nodes| :: r[i] == nodes[i].ip
  {
    if |nodes| == 0 then [] else SlotsOf(nodes[..|nodes| - 1]) + [nodes[|nodes| - 1].ip]
  }

  lemma {:induction false} OthersGrow(ips: seq<Ip>, x: Ip, n: nat)
    requires n <= |ips|
    ensures |Others(ips[..n], x)| <= |Others(ips, x)|
    decreases |ips|
  {
    if n < |ips| {
      assert ips[..|ips| - 1][..n] == ips[..n];
      OthersGrow(ips[..|ips| - 1], x, n);
    } else {
      assert ips[..n] == ips;
    }
  }

  /** The others leave room for one. */
  lemma {:induction false} OthersFit(ips: seq<Ip>, x: Ip, n: nat)
    requires Distinct(ips) && x in ips && n <= |ips|
    ensures |Others(ips[..n], x)| <= |ips| - 1 == |Others(ips, x)|
  {
    var k :| 0 <= k < |ips| && ips[k] == x;
    OthersSkipsOne(ips, k);
    OthersGrow(ips, x, n);
  }

  /** One more node looked at: the others and the bundle grow by it unless it is x. */
  lemma {:induction false} OneMore(mems: seq<Slot>, x: Ip, i: nat)
    requires i < |mems|
    ensures var more := IpOf(mems[i]) != x;
            |Others(IpsOf(mems)[..i + 1], x)| == |Others(IpsOf(mems)[..i], x)| + (if more then 1 else 0) &&
            Bundle(mems[..i + 1], x) == Bundle(mems[..i], x) + if more then mems[i] else []
  {
    assert IpsOf(mems)[..i + 1][..i] == IpsOf(mems)[..i];
    assert mems[..i + 1][..i] == mems[..i];
  }

  /** The next slot of a buffer that holds `first` and `copied` slots. */
  method CopySlot(buffer: array<byte>, copied: nat, mem: Slot, ghost first: Text, ghost bundle: Text)
    requires 1 + IP_SIZE * (copied + 1) <= buffer.Length && buffer[..1 + IP_SIZE * copied] == first + bundle
    modifies buffer
    ensures buffer[..1 + IP_SIZE * (copied + 1)] == first + (bundle + mem)
  {
    PutNext(buffer[..], first + bundle, mem);
    Memcpy(buffer, 1 + IP_SIZE * copied, mem);
    assert first + bundle + mem == first + (bundle + mem);
  }

  /** The buffer holds `first` and the slots of the first i nodes but for x. */
  ghost predicate Copied(buffer: array<byte>, copied: nat, x: Ip, first: Text, mems: seq<Slot>, i: nat)
    requires i <= |mems|
    reads buffer
  {
    copied == |Others(IpsOf(mems)[..i], x)| && 1 + IP_SIZE * copied <= buffer.Length &&
    buffer[..1 + IP_SIZE * copied] == first + Bundle(mems[..i], x)
  }

  lemma {:induction false} NothingCopied(buffer: array<byte>, x: Ip, first: Text, mems: seq<Slot>)
    requires buffer.Length > 0 && first == [buffer[0]]
    ensures Copied(buffer, 0, x, first, mems, 0)
  {
    assert IpsOf(mems)[..0] == [] && mems[..0] == [] && buffer[..1] == first;
  }

  lemma {:induction false} AllCopied(buffer: array<byte>, copied: nat, x: Ip, first: Text, mems: seq<Slot>)
    requires Distinct(IpsOf(mems)) && x in IpsOf(mems) && buffer.Length == 1 + IP_SIZE * (|mems| - 1)
    requires Copied(buffer, copied, x, first, mems, |mems|)
    ensures buffer[..] == first + Bundle(mems, x)
  {
    OthersFit(IpsOf(mems), x, |mems|);
    assert IpsOf(mems)[..|mems|] == IpsOf(mems) && mems[..|mems|] == mems;
    assert buffer[..] == buffer[..buffer.Length];
  }

  method NextSlot(buffer: array<byte>, copied: nat, mem: Slot, x: Ip, ghost first: Text, ghost mems: seq<Slot>, ghost i: nat)
    returns (more: nat)
    requires i < |mems| && mem == mems[i] && Copied(buffer, copied, x, first, mems, i)
    requires 1 + IP_SIZE * |Others(IpsOf(mems)[..i + 1], x)| <= buffer.Length
    modifies buffer
    ensures Copied(buffer, more, x, first, mems, i + 1)
  {
    OneMore(mems, x, i);
    more := copied;
    if CStr(mem) != x {
      CopySlot(buffer, copied, mem, first, Bundle(mems[..i], x));
      more := copied + 1;
    }
  }

  class Server {
    var head: Client?
    var numClients: int
    ghost var nodes: seq<Client>

    ghost predicate NodeAt(i: nat)
      requires i < |nodes|
      reads this, nodes
    {
      nodes[i].next == (if i + 1 < |nodes| then nodes[i + 1] else null) && forall j | 0 <= j < i :: nodes[j] != nodes[i]
    }

    ghost predicate Valid()
      reads this, nodes
    {
      numClients == |nodes| && (|nodes| > 0 ==> head == nodes[0]) && forall i | 0 <= i < |nodes| :: NodeAt(i)
    }

    ghost function Slots(): (r: seq<Slot>)
      reads this
      ensures |r| == |nodes| && forall i | 0 <= i < |nodes| :: r[i] == nodes[i].ip
    {
      SlotsOf(nodes)
    }

    ghost function Ips(): seq<Ip>
      reads this
    {
      IpsOf(Slots())
    }

    constructor ()
      ensures Valid() && Ips() == []
    {
      head, numClients, nodes := null, 0, [];
    }

    /** The last node of the list, or the one that holds the address. */
    method FindOrLast(ip: Ip) returns (found: bool, last: Client)
      requires Valid() && |nodes| > 0
      ensures found <==> ip in Ips()
      ensures !found ==> last == nodes[|nodes| - 1]
    {
      last := head;
      ghost var i: nat := 0;
      while true
        invariant i < |nodes| && last == nodes[i] && ip !in Ips()[..i]
        decreases |nodes| - i
      {
        assert NodeAt(i) && Ips()[i] == IpOf(last.ip);
        if CStr(last.ip) == ip {
          return true, last;
        }
        assert Ips()[..i + 1] == Ips()[..i] + [Ips()[i]];
        if last.next == null {
          assert Ips()[..i + 1] == Ips();
          return false, last;
        }
        last, i := last.next, i + 1;
      }
    }

    /** mem is what strdup(ip) makes: the address, its zero, and what lies behind. */
    method AddIfAbsent(ip: Ip, mem: Slot)
      requires Valid() && |nodes| > 0 && IpOf(mem) == ip
      modifies this, nodes
      ensures Valid() && fresh(set n | n in nodes && n !in old(nodes)) && head == old(head)
      ensures Slots() == if ip in old(Ips()) then old(Slots()) else old(Slots()) + [mem]
    {
      var found, last := FindOrLast(ip);
      if found {
        return;
      }
      var node := new Client(mem);
      Append(last, node);
    }

    method Append(last: Client, node: Client)
      requires Valid() && |nodes| > 0 && last == nodes[|nodes| - 1] && node !in nodes && node.next == null
      modifies this, last
      ensures Valid() && nodes == old(nodes) + [node] && head == old(head)
    {
      forall i | 0 <= i < |nodes| - 1 ensures nodes[i] != last {
        assert NodeAt(|nodes| - 1);
      }
      assert forall i | 0 <= i < |nodes| :: NodeAt(i);
      last.next := node;
      nodes := nodes + [node];
      numClients := numClients + 1;
      forall i | 0 <= i < |nodes| ensures NodeAt(i) {
        if i < |nodes| - 1 {
          assert old(NodeAt(i));
        }
      }
    }

    method CountNodes() returns (counted: int)
      requires Valid() && |nodes| > 0
      ensures counted == |nodes|
    {
      var node := head;
      counted := 1;
      assert NodeAt(0);
      while node.next != null
        invariant 1 <= counted <= |nodes| && node == nodes[counted - 1] && NodeAt(counted - 1)
        decreases |nodes| - counted
      {
        node := node.next;
        counted := counted + 1;
      }
    }

    /** The buffer sent; none if there is no client. The buffer has room for all but one. */
    method SendClients(ignore: Ip) returns (data: Option<Text>)
      requires Valid() && Distinct(Ips()) && (|nodes| > 0 ==> ignore in Ips())
      ensures data == if |nodes| == 0 then None else Some(Reply(Slots(), ignore))
    {
      if numClients <= 0 {
        return None;
      }
      var counted := CountNodes();
      if counted != numClients {
        return None;
      }
      var buffer := new byte[1 + IP_SIZE * (numClients - 1)];
      buffer[0] := (numClients - 1) % 256;
      FillBuffer(buffer, ignore, Slots());
      data := Some(buffer[..]);
    }

    method FillBuffer(buffer: array<byte>, ignore: Ip, ghost mems: seq<Slot>)
      requires Valid() && |nodes| > 0 && buffer.Length == 1 + IP_SIZE * (|mems| - 1)
      requires |mems| == |nodes| && forall i | 0 <= i < |mems| :: mems[i] == nodes[i].ip
      requires Distinct(IpsOf(mems)) && ignore in IpsOf(mems)
      modifies buffer
      ensures buffer[..] == [old(buffer[0])] + Bundle(mems, ignore)
    {
      ghost var first := [buffer[0]];
      var node, copied, i: nat := head, 0, 0;
      NothingCopied(buffer, ignore, first, mems);
      while i < numClients
        invariant i <= |nodes| && node == (if i < |nodes| then nodes[i] else null)
        invariant Copied(buffer, copied, ignore, first, mems, i)
        decreases numClients - i
      {
        assert NodeAt(i);
        OthersFit(IpsOf(mems), ignore, i + 1);
        copied := NextSlot(buffer, copied, node.ip, ignore, first, mems, i);
        node, i := node.next, i + 1;
      }
      AllCopied(buffer, copied, ignore, first, mems);
    }

    /** The registry is what the list requests so far make it. */
    ghost predicate Serves(requests: seq<Ip>)
      reads this, nodes
    {
      Valid() && Ips() == Registered(requests)
    }

    static lemma {:induction false} IpsOfAppend(mems: seq<Slot>, mem: Slot)
      ensures IpsOf(mems + [mem]) == IpsOf(mems) + [IpOf(mem)]
    {
    }

    static lemma {:induction false} RegisteredAppend(requests: seq<Ip>, ip: Ip)
      ensures Registered(requests + [ip]) == Contact(Registered(requests), ip)
    {
      assert (requests + [ip])[..|requests|] == requests;
    }

    method Register(ip: Ip, mem: Slot, ghost requests: seq<Ip>)
      requires Serves(requests) && IpOf(mem) == ip
      modifies this, nodes
      ensures Serves(requests + [ip]) && |nodes| > 0 && ip in Ips()
    {
      RegisteredAppend(requests, ip);
      IpsOfAppend(Slots(), mem);
      if numClients == 0 {
        head := new Client(mem);
        nodes, numClients := [head], 1;
        assert Ips() == [ip];
      } else {
        AddIfAbsent(ip, mem);
        assert ip !in old(Ips()) ==> Ips() == old(Ips()) + [ip] && Ips()[|old(Ips())|] == ip;
      }
    }

    /** A turn of the accept loop. A "list" message is answered and registers its sender; a "join" message and a closed
        connection are not, and leave the registry as it was. The reply, if any, is read by a client as every other address,
        in order, exactly if the client has room for them, and the upper bytes of its count are those of their number. */
    method Accept(msg: Received, ip: Ip, mem: Slot, ghost requests: seq<Ip>) returns (reply: Option<Text>)
      requires Serves(requests) && IpOf(mem) == ip
      modifies this, nodes
      ensures Serves(if IsListRequest(msg) then requests + [ip] else requests)
      ensures reply.Some? <==> msg[0] != 0 && msg[1..5] == [108, 105, 115, 116]
      ensures Arrives([4, 108, 105, 115, 116], msg) ==> reply.Some? && Serves(requests + [ip])
      ensures msg[0] == 0 || Arrives([4, 106, 111, 105, 110], msg) ==> reply == None && Serves(requests)
      ensures reply.Some? ==> numClients > 0 && ReadIff(reply.value, ip)
    {
      ListIsAnswered(msg);
      JoinIsNotAnswered(msg);
      reply := None;
      if IsListRequest(msg) {
        Register(ip, mem, requests);
        RegisteredIsFirstContacts(requests + [ip]);
        reply := SendClients(ip);
        ReplyReadIff(ip);
      }
    }

    lemma {:induction false} ReplyReadIff(ip: Ip)
      requires Valid() && Distinct(Ips()) && ip in Ips()
      ensures numClients > 0 && ReadIff(Reply(Slots(), ip), ip)
    {
      forall before: nat, room: nat
        ensures Peers(Reply(Slots(), ip), before, room) == Some(Others(Ips(), ip)) <==> Fits(numClients - 1, before, room)
      {
        PeersAreOthersIff(Slots(), ip, before, room);
      }
    }

    ghost predicate ReadIff(reply: Text, ip: Ip)
      requires numClients > 0
      reads this
    {
      |reply| > 0 &&
      forall before: nat, room: nat ::
        Peers(reply, before, room) == Some(Others(Ips(), ip)) <==> Fits(numClients - 1, before, room)
    }
  }
}
