/** The registry of client addresses by first contact, and the reply to a "list" request with its reading. */
module Registry {
  import opened OrderedMap
  import opened Sequences
  import opened Decimal
  import opened CStrings

  const IP_SIZE := 16
  /** The addresses that a client has room for. */
  const MAX_PEERS := 10
  /** The receive buffer, of stdio's size. */
  const BUFSIZ := 8192

  /** What inet_ntoa returns: a C string that fits IP_SIZE bytes with its closing zero. */
  type Ip = s: Text | NoNul(s) && |s| < IP_SIZE witness []

  // ----- who is registered

  function Contact(ips: seq<Ip>, ip: Ip): seq<Ip>
  {
    if ip in ips then ips else ips + [ip]
  }

  /** The registry after these "list" requests. */
  function Registered(requests: seq<Ip>): seq<Ip>
  {
    if |requests| == 0 then [] else Contact(Registered(requests[..|requests| - 1]), requests[|requests| - 1])
  }

  /** When x was first in contact. */
  function First(requests: seq<Ip>, x: Ip): (k: nat)
    ensures k <= |requests|
    ensures x in requests ==> k < |requests| && requests[k] == x
    ensures x !in requests[..k]
  {
    if |requests| == 0 || requests[0] == x then 0
    else
      assert requests[..1 + First(requests[1..], x)] == [requests[0]] + requests[1..][..First(requests[1..], x)];
      1 + First(requests[1..], x)
  }

  /** In order of first contact, everyone who was in contact, once. */
  ghost predicate FirstContacts(requests: seq<Ip>, s: seq<Ip>)
  {
    (forall x :: x in s <==> x in requests) && ByFirst(requests, s)
  }

  lemma {:induction false} FirstKeeps(requests: seq<Ip>, ip: Ip, x: Ip)
    ensures x in requests ==> First(requests + [ip], x) == First(requests, x)
    ensures x !in requests ==> First(requests + [ip], x) >= |requests|
  {
    if |requests| > 0 && requests[0] != x {
      assert (requests + [ip])[1..] == requests[1..] + [ip];
      FirstKeeps(requests[1..], ip, x);
    }
  }

  lemma {:induction false} ContactKeeps(requests: seq<Ip>, ip: Ip, s: seq<Ip>)
    requires FirstContacts(requests, s)
    ensures FirstContacts(requests + [ip], Contact(s, ip))
  {
    var t := Contact(s, ip);
    forall i, j | 0 <= i < j < |t| ensures First(requests + [ip], t[i]) < First(requests + [ip], t[j]) {
      FirstKeeps(requests, ip, t[i]);
      FirstKeeps(requests, ip, t[j]);
    }
  }

  /** Over every run of requests the registry lists everyone in contact, in order of first contact, without duplicates. */
  lemma {:induction false} RegisteredIsFirstContacts(requests: seq<Ip>)
    ensures FirstContacts(requests, Registered(requests)) && Distinct(Registered(requests))
  {
    if |requests| > 0 {
      var n := |requests| - 1;
      RegisteredIsFirstContacts(requests[..n]);
      ContactKeeps(requests[..n], requests[n], Registered(requests[..n]));
      assert requests[..n] + [requests[n]] == requests;
    }
  }

  /** No other sequence is in that order. */
  lemma {:induction false} FirstContactsUnique(requests: seq<Ip>, s: seq<Ip>, t: seq<Ip>)
    requires FirstContacts(requests, s) && FirstContacts(requests, t)
    ensures s == t
  {
    SortedUnique(requests, s, t);
  }

  ghost predicate ByFirst(requests: seq<Ip>, s: seq<Ip>)
  {
    forall i, j | 0 <= i < j < |s| :: First(requests, s[i]) < First(requests, s[j])
  }

  ghost predicate Within(s: seq<Ip>, t: seq<Ip>)
  {
    forall x | x in s :: x in t
  }

  lemma {:induction false} SortedUnique(requests: seq<Ip>, s: seq<Ip>, t: seq<Ip>)
    requires Within(s, t) && Within(t, s) && ByFirst(requests, s) && ByFirst(requests, t)
    ensures s == t
  {
    assert (|s| > 0 ==> s[0] in t) && (|t| > 0 ==> t[0] in s);
    if |s| > 0 {
      LastIsLast(requests, s, t);
      var m, n := |s| - 1, |t| - 1;
      KeptWithoutLast(requests, s, t);
      KeptWithoutLast(requests, t, s);
      SortedUnique(requests, s[..m], t[..n]);
      assert s == s[..m] + [s[m]] && t == t[..n] + [t[n]];
    }
  }

  lemma {:induction false} KeptWithoutLast(requests: seq<Ip>, s: seq<Ip>, t: seq<Ip>)
    requires |s| > 0 && |t| > 0 && s[|s| - 1] == t[|t| - 1] && Within(s, t) && ByFirst(requests, s)
    ensures Within(s[..|s| - 1], t[..|t| - 1])
  {
    var m, n := |s| - 1, |t| - 1;
    forall x | x in s[..m] ensures x in t[..n] {
      var i :| 0 <= i < m && s[..m][i] == x;
      assert s[i] in t && First(requests, s[i]) < First(requests, s[m]);
      var j :| 0 <= j < |t| && t[j] == x;
      assert t[..n][j] == x;
    }
  }

  lemma {:induction false} LastIsLast(requests: seq<Ip>, s: seq<Ip>, t: seq<Ip>)
    requires |s| > 0 && |t| > 0 && Within(s, t) && Within(t, s) && ByFirst(requests, s) && ByFirst(requests, t)
    ensures s[|s| - 1] == t[|t| - 1]
  {
    var x, y := s[|s| - 1], t[|t| - 1];
    assert x in t && y in s;
    var j :| 0 <= j < |t| && t[j] == x;
    var i :| 0 <= i < |s| && s[i] == y;
    assert j < |t| - 1 ==> First(requests, x) < First(requests, y);
  }

  // ----- the reply

  function Others(ips: seq<Ip>, x: Ip): (r: seq<Ip>)
  {
    if |ips| == 0 then []
    else
      var n := |ips| - 1;
      if ips[n] == x then Others(ips[..n], x) else Others(ips[..n], x) + [ips[n]]
  }

  /** The others are the registry without the one place of x. */
  lemma {:induction false} OthersSkipsOne(ips: seq<Ip>, k: nat)
    requires Distinct(ips) && k < |ips|
    ensures Others(ips, ips[k]) == ips[..k] + ips[k + 1..]
  {
    var n := |ips| - 1;
    if k < n {
      OthersSkipsOne(ips[..n], k);
      assert ips[..n][..k] == ips[..k] && ips[k + 1..] == ips[..n][k + 1..] + [ips[n]];
    } else {
      OthersAll(ips[..n], ips[n]);
      assert ips[..k] + ips[k + 1..] == ips[..n];
    }
  }

  lemma {:induction false} OthersAll(ips: seq<Ip>, x: Ip)
    requires x !in ips
    ensures Others(ips, x) == ips
  {
    if |ips| > 0 {
      OthersAll(ips[..|ips| - 1], x);
      assert ips == ips[..|ips| - 1] + [ips[|ips| - 1]];
    }
  }

  /** The IP_SIZE bytes at a stored address: the address, its zero, and whatever lies behind it. */
  type Slot = m: Text | |m| == IP_SIZE && |CStr(m)| < IP_SIZE witness seq(IP_SIZE, _ => 0)

  function IpOf(m: Slot): Ip
  {
    CStrNoNul(m);
    CStr(m)
  }

  function IpsOf(mems: seq<Slot>): (r: seq<Ip>)
    ensures |r| == |mems|
    ensures forall i | 0 <= i < |mems| :: r[i] == IpOf(mems[i])
  {
    seq(|mems|, i requires 0 <= i < |mems| => IpOf(mems[i]))
  }

  function Bundle(mems: seq<Slot>, x: Ip): Text
  {
    if |mems| == 0 then []
    else
      var n := |mems| - 1;
      Bundle(mems[..n], x) + if IpOf(mems[n]) == x then [] else mems[n]
  }

  lemma {:induction false} IpsOfPrefix(mems: seq<Slot>, n: nat)
    requires n <= |mems|
    ensures IpsOf(mems[..n]) == IpsOf(mems)[..n]
  {
  }

  lemma {:induction false} BundleSize(mems: seq<Slot>, x: Ip)
    ensures |Bundle(mems, x)| == IP_SIZE * |Others(IpsOf(mems), x)|
  {
    if |mems| > 0 {
      BundleSize(mems[..|mems| - 1], x);
      IpsOfPrefix(mems, |mems| - 1);
    }
  }

  /** The k-th slot of the bundle holds the k-th of the others. */
  lemma {:induction false} BundleHolds(mems: seq<Slot>, x: Ip, k: nat)
    requires k < |Others(IpsOf(mems), x)|
    ensures IP_SIZE * k + IP_SIZE <= |Bundle(mems, x)|
    ensures CStr(Bundle(mems, x)[IP_SIZE * k..IP_SIZE * k + IP_SIZE]) == Others(IpsOf(mems), x)[k]
  {
    var n := |mems| - 1;
    IpsOfPrefix(mems, n);
    BundleSize(mems, x);
    BundleSize(mems[..n], x);
    if k < |Others(IpsOf(mems[..n]), x)| {
      BundleHolds(mems[..n], x, k);
      assert Bundle(mems, x)[IP_SIZE * k..IP_SIZE * k + IP_SIZE] == Bundle(mems[..n], x)[IP_SIZE * k..IP_SIZE * k + IP_SIZE];
    } else {
      assert Bundle(mems, x)[IP_SIZE * k..IP_SIZE * k + IP_SIZE] == mems[n];
    }
  }

  /** The message sendClients sends: memcpy takes the low byte of the count. */
  function Reply(mems: seq<Slot>, x: Ip): Text
    requires |mems| > 0
  {
    [(|mems| - 1) % 256] + Bundle(mems, x)
  }

  /** requestPeers overwrites only the low byte of *numPeers. */
  function NumPeers(msg: Text, before: nat): nat
    requires |msg| > 0
  {
    before - before % 256 + msg[0]
  }

  /** What requestPeers leaves in a destination with room for that many addresses, from a receive buffer of BUFSIZ bytes. It is
      None where the program reads behind what it received or writes behind the destination. */
  function Peers(msg: Text, before: nat, room: nat): Option<seq<Text>>
    requires |msg| > 0
  {
    var n := NumPeers(msg, before);
    if 1 + IP_SIZE * n > |msg| || 1 + IP_SIZE * n > BUFSIZ || n > room then None
    else Some(seq(n, k requires 0 <= k < n => CStr(msg[1 + IP_SIZE * k..1 + IP_SIZE * k + IP_SIZE])))
  }

  /** The conditions under which n addresses fit on their way to a client with that count and that much room. */
  predicate Fits(n: nat, before: nat, room: nat)
  {
    n <= room && 1 + IP_SIZE * n <= BUFSIZ && before / 256 == n / 256
  }

  /** Main result: the client gets all the others, in order, exactly if its destination and its receive buffer have room for
      them and the upper bytes of its count agree with theirs. */
  lemma {:induction false} PeersAreOthersIff(mems: seq<Slot>, x: Ip, before: nat, room: nat)
    requires Distinct(IpsOf(mems)) && x in IpsOf(mems)
    ensures |Others(IpsOf(mems), x)| == |mems| - 1
    ensures Peers(Reply(mems, x), before, room) == Some(Others(IpsOf(mems), x)) <==> Fits(|mems| - 1, before, room)
  {
    var ips := IpsOf(mems);
    var k :| 0 <= k < |ips| && ips[k] == x;
    OthersSkipsOne(ips, k);
    ReplyReads(mems, x, before, room);
    ReadsAllIff(|mems| - 1, before);
    var others, n := Others(ips, x), NumPeers(Reply(mems, x), before);
    if n <= |others| {
      assert |others[..n]| == n && (n == |others| ==> others[..n] == others);
    }
  }

  /** A client as it starts, with a count of zero and room for MAX_PEERS addresses, gets them all exactly if at most ten others
      are registered; with enough room exactly if at most 255 are. */
  lemma {:induction false} FirstRequestIff(mems: seq<Slot>, x: Ip, room: nat)
    requires Distinct(IpsOf(mems)) && x in IpsOf(mems)
    ensures Peers(Reply(mems, x), 0, MAX_PEERS) == Some(Others(IpsOf(mems), x)) <==> |mems| - 1 <= MAX_PEERS
    ensures room >= 255 ==> (Peers(Reply(mems, x), 0, room) == Some(Others(IpsOf(mems), x)) <==> |mems| - 1 <= 255)
  {
    PeersAreOthersIff(mems, x, 0, MAX_PEERS);
    PeersAreOthersIff(mems, x, 0, room);
  }

  /** What the first of two clients is sent: a one, and the 16 bytes at the other's address. */
  lemma {:induction false} TwoClientsExample(mine: Slot, other: Slot)
    requires IpOf(mine) != IpOf(other)
    ensures Reply([mine, other], IpOf(mine)) == [1] + other && |Reply([mine, other], IpOf(mine))| == 17
  {
    assert [mine, other][..1] == [mine] && [mine][..0] == [];
    assert Bundle([mine], IpOf(mine)) == [];
  }

  /** Twelve clients, at addresses of one letter each. */
  function Letter(k: nat): Slot
    requires k < 12
  {
    LetterIsIp(k);
    [65 + k] + seq(IP_SIZE - 1, _ => 0)
  }

  lemma {:induction false} LetterIsIp(k: nat)
    requires k < 12
    ensures var m := [65 + k] + seq(IP_SIZE - 1, _ => 0); |m| == IP_SIZE && CStr(m) == [65 + k]
  {
    var m := [65 + k] + seq(IP_SIZE - 1, _ => 0);
    assert m[1..][0] == 0 && m[0] == 65 + k;
    assert CStr(m[1..]) == [];
  }

  /** With twelve of them registered, each request writes behind the ten places of its client. */
  lemma {:induction false} TwelveClientsExample()
    ensures var mems := seq(12, k requires 0 <= k < 12 => Letter(k));
            Distinct(IpsOf(mems)) && forall x | x in IpsOf(mems) :: Peers(Reply(mems, x), 0, MAX_PEERS) == None
  {
    var mems: seq<Slot> := seq(12, k requires 0 <= k < 12 => Letter(k));
    forall k | 0 <= k < 12 ensures IpsOf(mems)[k] == [65 + k] {
      LetterIsIp(k);
    }
    forall i, j | 0 <= i < j < 12 ensures IpsOf(mems)[i] != IpsOf(mems)[j] {
      assert [65 + i][0] != [65 + j][0];
    }
    forall x | x in IpsOf(mems) ensures Peers(Reply(mems, x), 0, MAX_PEERS) == None {
      PeersAreOthersIff(mems, x, 0, MAX_PEERS);
      ReplyReads(mems, x, 0, MAX_PEERS);
    }
  }

  lemma {:induction false} ReadsAllIff(n: nat, before: nat)
    ensures before - before % 256 + n % 256 == n <==> before / 256 == n / 256
  {
  }

  /** Whatever the count was, the reply is read as the first of the others, as many as the bytes of the count tell. */
  lemma {:induction false} ReplyReads(mems: seq<Slot>, x: Ip, before: nat, room: nat)
    requires |mems| > 0 && |Others(IpsOf(mems), x)| == |mems| - 1
    ensures var n, others := NumPeers(Reply(mems, x), before), Others(IpsOf(mems), x);
            Peers(Reply(mems, x), before, room) ==
            if n <= |others| && n <= room && 1 + IP_SIZE * n <= BUFSIZ then Some(others[..n]) else None
  {
    BundleSize(mems, x);
    var others, msg := Others(IpsOf(mems), x), Reply(mems, x);
    var n := NumPeers(msg, before);
    if n <= |others| && n <= room && 1 + IP_SIZE * n <= BUFSIZ {
      forall k | 0 <= k < n ensures CStr(msg[1 + IP_SIZE * k..1 + IP_SIZE * k + IP_SIZE]) == others[k] {
        BundleHolds(mems, x, k);
        assert msg[1 + IP_SIZE * k..1 + IP_SIZE * k + IP_SIZE] == Bundle(mems, x)[IP_SIZE * k..IP_SIZE * k + IP_SIZE];
      }
      var got := Peers(msg, before, room).value;
      assert |got| == n && (forall k | 0 <= k < n :: got[k] == others[..n][k]);
      assert got == others[..n];
    }
  }
}
