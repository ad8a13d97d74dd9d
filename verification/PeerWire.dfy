/** The peer messages: how they are laid out in buffers, and how a stream of them is taken apart again. */
module PeerWire {
  import opened Bits
  import opened OrderedMap
  import opened Decimal
  import opened Bitfield
  import opened Buffers
  import opened Sequences

  const HAVE: byte := 4
  const BITFIELD: byte := 5
  const REQUEST: byte := 6
  const PIECE: byte := 7
  const CANCEL: byte := 8

  type int32 = i: int | INT_MIN <= i <= INT_MAX

  datatype Message =
    | State(id: byte)
    | Have(piece: int32)
    | Bits(field: Text)
    | Request(piece: int32, offset: int32, length: int32)
    | Block(piece: int32, offset: int32, data: Text)
    | Cancel(piece: int32, offset: int32, length: int32)

  // ----- ints in memory

  function Unsigned(i: int32): (u: nat)
    ensures u < 0x1_0000_0000
  {
    if i < 0 then i + 0x1_0000_0000 else i
  }

  /** The four bytes of an int, lowest first. */
  function IntBytes(i: int32): (b: Text)
    ensures |b| == 4
  {
    var u := Unsigned(i);
    [LowByte(u), LowByte(u / 256), LowByte(u / 256 / 256), LowByte(u / 256 / 256 / 256)]
  }

  function LowByte(u: nat): byte
  {
    u % 256
  }

  function IntOf(b: Text): int32
    requires |b| == 4
  {
    var b0: int, b1: int, b2: int, b3: int := b[0], b[1], b[2], b[3];
    var u := b0 + 256 * b1 + 65536 * b2 + 16777216 * b3;
    if u > INT_MAX then u - 0x1_0000_0000 else u
  }

  lemma {:induction false} IntReadBack(i: int32)
    ensures IntOf(IntBytes(i)) == i
    ensures var b := IntBytes(i);
            var b0: int, b1: int, b2: int, b3: int := b[0], b[1], b[2], b[3];
            b0 + 0x100 * b1 + 0x1_0000 * b2 + 0x100_0000 * b3 == if i < 0 then 0x1_0000_0000 + i else i
  {
    var u := Unsigned(i);
    var u1 := u / 256;
    var u2 := u1 / 256;
    var u3 := u2 / 256;
    assert u == 256 * u1 + u % 256 && u1 == 256 * u2 + u1 % 256 && u2 == 256 * u3 + u2 % 256;
    assert u3 % 256 == u3;
  }

  // ----- building

  /** The lengths that the int arithmetic of the constructors can hold. */
  predicate Fits(m: Message)
  {
    match m
    case Bits(field) => 4 + 1 + |field| <= INT_MAX
    case Block(_, _, data) => 13 + |data| <= INT_MAX
    case State(_) => true
    case Have(_) => true
    case Request(_, _, _) => true
    case Cancel(_, _, _) => true
  }

  function IdOf(m: Message): byte
  {
    match m
    case State(id) => id
    case Have(_) => HAVE
    case Bits(_) => BITFIELD
    case Request(_, _, _) => REQUEST
    case Block(_, _, _) => PIECE
    case Cancel(_, _, _) => CANCEL
  }

  function Payload(m: Message): Text
  {
    match m
    case State(_) => []
    case Have(piece) => IntBytes(piece)
    case Bits(field) => field
    case Request(piece, offset, length) => IntBytes(piece) + IntBytes(offset) + IntBytes(length)
    case Block(piece, offset, data) => IntBytes(piece) + IntBytes(offset) + data
    case Cancel(piece, offset, length) => IntBytes(piece) + IntBytes(offset) + IntBytes(length)
  }

  /** Length, identifier, payload; the length counts what follows it. */
  function Frame(m: Message): (r: Text)
    requires Fits(m)
    ensures |r| == 5 + |Payload(m)|
  {
    IntBytes(1 + |Payload(m)|) + [IdOf(m)] + Payload(m)
  }

  /** The start that all messages share. */
  method Begin(size: nat, length: int32, id: byte) returns (msg: array<byte>)
    requires size >= 5
    ensures fresh(msg) && msg.Length == size && msg[..5] == IntBytes(length) + [id]
  {
    msg := new byte[size];
    Memcpy(msg, 0, IntBytes(length));
    msg[4] := id;
  }

  /** Appends a field behind the `at` bytes that hold `done`. */
  method Field(msg: array<byte>, at: nat, src: Text, ghost done: Text)
    requires |done| == at && at + |src| <= msg.Length && msg[..at] == done
    modifies msg
    ensures msg[..at + |src|] == done + src
  {
    PutNext(msg[..], done, src);
    Memcpy(msg, at, src);
  }

  method ConstructBitfieldMessage(field: Text) returns (msg: array<byte>)
    requires Fits(Bits(field))
    ensures fresh(msg) && msg[..] == Frame(Bits(field))
    ensures Starts(msg[..], 1 + |field|, 5) && msg[..][5..] == field
  {
    BitfieldCarries(field);
    msg := Begin(4 + 1 + |field|, |field| + 1, BITFIELD);
    Field(msg, 5, field, msg[..5]);
    assert msg[..] == msg[..5 + |field|];
  }

  method ConstructStateMessage(id: byte) returns (msg: array<byte>)
    ensures fresh(msg) && msg[..] == Frame(State(id)) == [1, 0, 0, 0, id]
  {
    StateCarries(id);
    msg := Begin(5, 1, id);
    assert msg[..] == msg[..5];
  }

  method ConstructHaveMessage(piece: int32) returns (msg: array<byte>)
    ensures fresh(msg) && msg[..] == Frame(Have(piece))
    ensures Starts(msg[..], 5, 4) && IntOf(msg[..][5..9]) == piece
  {
    HaveCarries(piece);
    msg := Begin(9, 5, HAVE);
    Field(msg, 5, IntBytes(piece), msg[..5]);
    assert msg[..] == msg[..9];
  }

  /** The three ints of a request or a cancel. */
  method Triple(id: byte, piece: int32, offset: int32, length: int32) returns (msg: array<byte>)
    ensures fresh(msg) && msg[..] == IntBytes(13) + [id] + (IntBytes(piece) + IntBytes(offset) + IntBytes(length))
  {
    msg := Begin(17, 13, id);
    ghost var front := msg[..5];
    Field(msg, 5, IntBytes(piece), front);
    Field(msg, 9, IntBytes(offset), front + IntBytes(piece));
    Field(msg, 13, IntBytes(length), front + IntBytes(piece) + IntBytes(offset));
    assert msg[..] == msg[..17];
  }

  method ConstructRequestMessage(piece: int32, offset: int32, length: int32) returns (msg: array<byte>)
    ensures fresh(msg) && msg[..] == Frame(Request(piece, offset, length))
    ensures Starts(msg[..], 13, 6) && ReadsThree(msg[..], piece, offset, length)
  {
    RequestCarries(piece, offset, length);
    msg := Triple(REQUEST, piece, offset, length);
  }

  method ConstructCancelMessage(piece: int32, offset: int32, length: int32) returns (msg: array<byte>)
    ensures fresh(msg) && msg[..] == Frame(Cancel(piece, offset, length))
    ensures Starts(msg[..], 13, 8) && ReadsThree(msg[..], piece, offset, length)
  {
    CancelCarries(piece, offset, length);
    msg := Triple(CANCEL, piece, offset, length);
  }

  method ConstructPieceMessage(piece: int32, offset: int32, data: Text) returns (msg: array<byte>)
    requires Fits(Block(piece, offset, data))
    ensures fresh(msg) && msg[..] == Frame(Block(piece, offset, data))
    ensures Starts(msg[..], 9 + |data|, 7)
    ensures IntOf(msg[..][5..9]) == piece && IntOf(msg[..][9..13]) == offset && msg[..][13..] == data
  {
    BlockCarries(piece, offset, data);
    msg := Begin(13 + |data|, 9 + |data|, PIECE);
    ghost var front := msg[..5];
    Field(msg, 5, IntBytes(piece), front);
    Field(msg, 9, IntBytes(offset), front + IntBytes(piece));
    Field(msg, 13, data, front + IntBytes(piece) + IntBytes(offset));
    assert msg[..] == msg[..13 + |data|];
    ConcatFour(front, IntBytes(piece), IntBytes(offset), data);
  }

  // ----- what a receiver reads

  /** The first five bytes: how many bytes follow the length, and the identifier. */
  ghost predicate Starts(f: Text, follow: int, id: int)
  {
    |f| == 4 + follow >= 5 && IntOf(f[..4]) == follow && f[4] == id
  }

  ghost predicate ReadsThree(f: Text, piece: int, offset: int, length: int)
  {
    |f| == 17 && IntOf(f[5..9]) == piece && IntOf(f[9..13]) == offset && IntOf(f[13..17]) == length
  }

  lemma {:induction false} FrameStarts(m: Message)
    requires Fits(m)
    ensures Starts(Frame(m), 1 + |Payload(m)|, IdOf(m)) && Frame(m)[5..] == Payload(m)
  {
    assert Frame(m)[..4] == IntBytes(1 + |Payload(m)|);
    IntReadBack(1 + |Payload(m)|);
  }

  lemma {:induction false} StateCarries(id: byte)
    ensures Frame(State(id)) == [1, 0, 0, 0, id]
  {
    assert IntBytes(1) == [1, 0, 0, 0];
  }

  lemma {:induction false} HaveCarries(piece: int32)
    ensures Starts(Frame(Have(piece)), 5, 4) && IntOf(Frame(Have(piece))[5..9]) == piece
  {
    FrameStarts(Have(piece));
    assert Frame(Have(piece))[5..9] == IntBytes(piece);
    IntReadBack(piece);
  }

  lemma {:induction false} BitfieldCarries(field: Text)
    requires Fits(Bits(field))
    ensures Starts(Frame(Bits(field)), 1 + |field|, 5) && Frame(Bits(field))[5..] == field
  {
    FrameStarts(Bits(field));
  }

  lemma {:induction false} RequestCarries(piece: int32, offset: int32, length: int32)
    ensures var f := Frame(Request(piece, offset, length)); Starts(f, 13, 6) && ReadsThree(f, piece, offset, length)
  {
    FrameStarts(Request(piece, offset, length));
    TripleCarries(Frame(Request(piece, offset, length)), piece, offset, length);
  }

  lemma {:induction false} CancelCarries(piece: int32, offset: int32, length: int32)
    ensures var f := Frame(Cancel(piece, offset, length)); Starts(f, 13, 8) && ReadsThree(f, piece, offset, length)
  {
    FrameStarts(Cancel(piece, offset, length));
    TripleCarries(Frame(Cancel(piece, offset, length)), piece, offset, length);
  }

  lemma {:induction false} TripleCarries(f: Text, a: int32, b: int32, c: int32)
    requires |f| >= 5 && f[5..] == IntBytes(a) + IntBytes(b) + IntBytes(c)
    ensures ReadsThree(f, a, b, c)
  {
    var p := f[5..];
    assert p[..4] == IntBytes(a) && p[4..8] == IntBytes(b) && p[8..] == IntBytes(c);
    assert f[5..9] == p[..4] && f[9..13] == p[4..8] && f[13..17] == p[8..];
    IntReadBack(a);
    IntReadBack(b);
    IntReadBack(c);
  }

  lemma {:induction false} BlockCarries(piece: int32, offset: int32, data: Text)
    requires Fits(Block(piece, offset, data))
    ensures var f := Frame(Block(piece, offset, data));
            Starts(f, 9 + |data|, 7) && IntOf(f[5..9]) == piece && IntOf(f[9..13]) == offset && f[13..] == data
  {
    var f := Frame(Block(piece, offset, data));
    FrameStarts(Block(piece, offset, data));
    BlockReadBack(piece, offset, data);
    assert f[5..9] == f[5..][..4] && f[9..13] == f[5..][4..8] && f[13..] == f[5..][8..];
  }

  // ----- taking a stream apart

  datatype Next = Next(message: Text, id: byte, size: nat)

  /** get_next_msg on the bytes at bufPtr. It is None where the program reads behind them or its int arithmetic overflows. */
  function GetNext(buf: Text): (r: Option<Next>)
    ensures r.Some? ==> 0 <= r.value.size <= |buf| && |r.value.message| == r.value.size
  {
    if |buf| < 5 then None
    else
      var size := IntOf(buf[..4]);
      if size > INT_MAX - 4 || size + 4 < 0 || size + 4 > |buf| then None
      else Some(Next(buf[..size + 4], buf[4], size + 4))
  }

  /** get_next_msg. Where a constructed message lies, that message is handed out whole, with its identifier. */
  method GetNextMsg(buf: Text) returns (message: Text, msgID: byte, msgSize: nat)
    requires GetNext(buf).Some?
    ensures GetNext(buf) == Some(Next(message, msgID, msgSize))
    ensures forall m | Fits(m) && Frame(m) <= buf :: message == Frame(m) && msgID == IdOf(m) && msgSize == |Frame(m)|
  {
    var size: int := IntOf(buf[..4]);
    message := buf[..size + 4];
    msgSize := size + 4;
    msgID := buf[4];
    forall m | Fits(m) && Frame(m) <= buf ensures message == Frame(m) && msgID == IdOf(m) && msgSize == |Frame(m)| {
      assert buf == Frame(m) + buf[|Frame(m)|..];
      NextOfFrame(m, buf[|Frame(m)|..]);
    }
  }

  /** The first message of a stream is the one that was put there, whole. */
  lemma {:induction false} NextOfFrame(m: Message, rest: Text)
    requires Fits(m)
    ensures GetNext(Frame(m) + rest) == Some(Next(Frame(m), IdOf(m), |Frame(m)|))
  {
    var buf := Frame(m) + rest;
    assert buf[..4] == IntBytes(1 + |Payload(m)|);
    IntReadBack(1 + |Payload(m)|);
    assert buf[..|Frame(m)|] == Frame(m);
  }

  function Stream(ms: seq<Message>): Text
    requires forall k | 0 <= k < |ms| :: Fits(ms[k])
  {
    if |ms| == 0 then [] else Frame(ms[0]) + Stream(ms[1..])
  }

  /** Repeated get_next_msg, moving on by the size each call reports, until the stream is used up. */
  function Messages(buf: Text): Option<seq<Text>>
    decreases |buf|
  {
    if |buf| == 0 then Some([])
    else
      match GetNext(buf)
      case None => None
      case Some(next) =>
        if next.size == 0 then None
        else match Messages(buf[next.size..]) case None => None case Some(more) => Some([next.message] + more)
  }

  function Frames(ms: seq<Message>): (r: seq<Text>)
    requires forall k | 0 <= k < |ms| :: Fits(ms[k])
    ensures |r| == |ms| && forall k | 0 <= k < |ms| :: r[k] == Frame(ms[k])
  {
    seq(|ms|, k requires 0 <= k < |ms| => Frame(ms[k]))
  }

  /** Main result: any stream of constructed messages comes apart into those messages, in order. */
  lemma {:induction false} StreamComesApart(ms: seq<Message>)
    requires forall k | 0 <= k < |ms| :: Fits(ms[k])
    ensures Messages(Stream(ms)) == Some(Frames(ms))
  {
    if |ms| > 0 {
      NextOfFrame(ms[0], Stream(ms[1..]));
      StreamComesApart(ms[1..]);
      Cut(Frame(ms[0]), Stream(ms[1..]));
      FramesCons(ms);
    }
  }

  lemma {:induction false} FramesCons(ms: seq<Message>)
    requires |ms| > 0 && forall k | 0 <= k < |ms| :: Fits(ms[k])
    ensures Frames(ms) == [Frame(ms[0])] + Frames(ms[1..])
  {
  }

  /** The two messages whose frames are five bytes with the identifier of a bitfield. */
  predicate BareBitfield(m: Message)
  {
    m == State(BITFIELD) || m == Bits([])
  }

  predicate Alike(m: Message, n: Message)
  {
    m == n || (BareBitfield(m) && BareBitfield(n))
  }

  lemma {:induction false} FrameParts(m: Message)
    requires Fits(m)
    ensures Frame(m)[4] == IdOf(m) && Frame(m)[5..] == Payload(m)
  {
  }

  /** A frame determines its message, whatever identifiers the state messages have, with that one exception. */
  lemma {:induction false} FramesEqualIff(m: Message, n: Message)
    requires Fits(m) && Fits(n)
    ensures Frame(m) == Frame(n) <==> Alike(m, n)
  {
    if Frame(m) == Frame(n) {
      FrameParts(m);
      FrameParts(n);
      SamePayload(m, n);
    }
  }

  lemma {:induction false} SamePayload(m: Message, n: Message)
    requires IdOf(m) == IdOf(n) && Payload(m) == Payload(n)
    ensures Alike(m, n)
  {
    match m {
      case State(_) =>
      case Bits(_) =>
      case Have(piece) =>
        IntReadBack(piece);
        if n.Have? {
          IntReadBack(n.piece);
        }
      case Request(piece, offset, length) =>
        TripleReadBack(piece, offset, length);
        if n.Request? {
          TripleReadBack(n.piece, n.offset, n.length);
        }
      case Cancel(piece, offset, length) =>
        TripleReadBack(piece, offset, length);
        if n.Cancel? {
          TripleReadBack(n.piece, n.offset, n.length);
        }
      case Block(piece, offset, data) =>
        BlockReadBack(piece, offset, data);
        if n.Block? {
          BlockReadBack(n.piece, n.offset, n.data);
        }
    }
  }

  lemma {:induction false} BlockReadBack(a: int32, b: int32, data: Text)
    ensures var p := IntBytes(a) + IntBytes(b) + data;
            IntOf(p[..4]) == a && IntOf(p[4..8]) == b && p[8..] == data
  {
    var p := IntBytes(a) + IntBytes(b) + data;
    assert p[..4] == IntBytes(a) && p[4..8] == IntBytes(b) && p[8..] == data;
    IntReadBack(a);
    IntReadBack(b);
  }

  lemma {:induction false} TripleReadBack(a: int32, b: int32, c: int32)
    ensures var p := IntBytes(a) + IntBytes(b) + IntBytes(c);
            IntOf(p[..4]) == a && IntOf(p[4..8]) == b && IntOf(p[8..]) == c
  {
    var p := IntBytes(a) + IntBytes(b) + IntBytes(c);
    assert p[..4] == IntBytes(a) && p[4..8] == IntBytes(b) && p[8..] == IntBytes(c);
    IntReadBack(a);
    IntReadBack(b);
    IntReadBack(c);
  }

  ghost predicate AllAlike(ms: seq<Message>, ns: seq<Message>)
  {
    |ms| == |ns| && forall k | 0 <= k < |ms| :: Alike(ms[k], ns[k])
  }

  /** Main result: a stream of any constructed messages determines how many they are and each of them, with that exception. */
  lemma {:induction false} StreamsEqualIff(ms: seq<Message>, ns: seq<Message>)
    requires (forall k | 0 <= k < |ms| :: Fits(ms[k])) && (forall k | 0 <= k < |ns| :: Fits(ns[k]))
    ensures Stream(ms) == Stream(ns) <==> AllAlike(ms, ns)
  {
    StreamComesApart(ms);
    StreamComesApart(ns);
    if Stream(ms) == Stream(ns) {
      assert |ms| == |Frames(ms)| == |ns|;
      forall k | 0 <= k < |ms| ensures Alike(ms[k], ns[k]) {
        assert Frames(ms)[k] == Frames(ns)[k];
        FramesEqualIff(ms[k], ns[k]);
      }
    }
    if AllAlike(ms, ns) {
      AlikeStreams(ms, ns);
    }
  }

  lemma {:induction false} AlikeStreams(ms: seq<Message>, ns: seq<Message>)
    requires (forall k | 0 <= k < |ms| :: Fits(ms[k])) && (forall k | 0 <= k < |ns| :: Fits(ns[k]))
    requires AllAlike(ms, ns)
    ensures Stream(ms) == Stream(ns)
  {
    if |ms| > 0 {
      FramesEqualIff(ms[0], ns[0]);
      AlikeStreams(ms[1..], ns[1..]);
    }
  }

  /** A state message with identifier 5 is byte for byte an empty bitfield. */
  lemma {:induction false} StateFiveIsEmptyBitfield()
    ensures Frame(State(BITFIELD)) == Frame(Bits([]))
  {
  }

  // ----- the byte order that protocol.md asks for

  function Reversed(b: Text): Text
    requires |b| == 4
  {
    [b[3], b[2], b[1], b[0]]
  }

  /** The four bytes of an int, highest first. */
  function NetworkBytes(i: int32): Text
  {
    Reversed(IntBytes(i))
  }

  function NetworkPayload(m: Message): Text
  {
    match m
    case State(_) => []
    case Have(piece) => NetworkBytes(piece)
    case Bits(field) => field
    case Request(piece, offset, length) => NetworkBytes(piece) + NetworkBytes(offset) + NetworkBytes(length)
    case Block(piece, offset, data) => NetworkBytes(piece) + NetworkBytes(offset) + data
    case Cancel(piece, offset, length) => NetworkBytes(piece) + NetworkBytes(offset) + NetworkBytes(length)
  }

  /** The message with all its integers big-endian. */
  function NetworkFrame(m: Message): Text
    requires Fits(m)
  {
    NetworkBytes(1 + |Payload(m)|) + [IdOf(m)] + NetworkPayload(m)
  }

  /** An int whose bytes read the same both ways. */
  predicate Symmetric(i: int32)
  {
    var b := IntBytes(i);
    b[0] == b[3] && b[1] == b[2]
  }

  lemma {:induction false} SymmetricIff(i: int32)
    ensures NetworkBytes(i) == IntBytes(i) <==> Symmetric(i)
  {
    var b := IntBytes(i);
    assert b == [b[0], b[1], b[2], b[3]];
    if NetworkBytes(i) == b {
      assert NetworkBytes(i)[0] == b[0] && NetworkBytes(i)[1] == b[1];
    }
  }

  /** A peer that reads an int in the required order gets the one that was meant exactly if it is symmetric. */
  lemma {:induction false} NetworkReadIff(i: int32)
    ensures IntOf(NetworkBytes(i)) == i <==> Symmetric(i)
  {
    IntReadBack(i);
    SymmetricIff(i);
    IntOfInjective(NetworkBytes(i), IntBytes(i));
  }

  lemma {:induction false} IntOfInjective(b: Text, c: Text)
    requires |b| == 4 && |c| == 4
    ensures IntOf(b) == IntOf(c) <==> b == c
  {
    var b1, b2 := Above(b[1], Above(b[2], b[3])), Above(b[2], b[3]);
    var c1, c2 := Above(c[1], Above(c[2], c[3])), Above(c[2], c[3]);
    if IntOf(b) == IntOf(c) {
      Peel(b[0], b1, c[0], c1);
      Peel(b[1], b2, c[1], c2);
      Peel(b[2], b[3], c[2], c[3]);
      assert b == [b[0], b[1], b[2], b[3]];
      assert c == [c[0], c[1], c[2], c[3]];
    }
  }

  function Above(low: byte, high: nat): nat
  {
    low + 256 * high
  }

  lemma Peel(b: byte, high: nat, c: byte, higher: nat)
    requires Above(b, high) == Above(c, higher)
    ensures b == c && high == higher
  {
  }

  /** The messages that come out in the required order: bitfields and blocks all of whose integers are symmetric. */
  predicate InOrder(m: Message)
    requires Fits(m)
  {
    match m
    case Bits(field) => Symmetric(1 + |field|)
    case Block(piece, offset, data) => Symmetric(9 + |data|) && Symmetric(piece) && Symmetric(offset)
    case _ => false
  }

  /** Main result: a constructed message is the one that the protocol document describes exactly in those cases, and so never
      for a state, have, request or cancel message. */
  lemma {:induction false} NetworkOrderIff(m: Message)
    requires Fits(m)
    ensures Frame(m) == NetworkFrame(m) <==> InOrder(m)
  {
    var size: int32 := 1 + |Payload(m)|;
    SymmetricIff(size);
    SamePartsIff(IntBytes(size), NetworkBytes(size), IdOf(m), Payload(m), NetworkPayload(m));
    match m {
      case Bits(_) =>
      case Block(piece, offset, data) => BlockOrderIff(piece, offset, data);
      case State(_) => SmallIsNot(size);
      case Have(_) => SmallIsNot(size);
      case Request(_, _, _) => SmallIsNot(size);
      case Cancel(_, _, _) => SmallIsNot(size);
    }
  }

  lemma {:induction false} SamePartsIff(a: Text, b: Text, id: byte, p: Text, q: Text)
    requires |a| == |b|
    ensures a + [id] + p == b + [id] + q <==> a == b && p == q
  {
    var s, t := a + [id] + p, b + [id] + q;
    assert s[..|a|] == a && t[..|a|] == b && s[|a| + 1..] == p && t[|a| + 1..] == q;
  }

  lemma {:induction false} BlockOrderIff(piece: int32, offset: int32, data: Text)
    ensures IntBytes(piece) + IntBytes(offset) + data == NetworkBytes(piece) + NetworkBytes(offset) + data <==>
            Symmetric(piece) && Symmetric(offset)
  {
    SymmetricIff(piece);
    SymmetricIff(offset);
    var p, q := IntBytes(piece) + IntBytes(offset) + data, NetworkBytes(piece) + NetworkBytes(offset) + data;
    assert p[..4] == IntBytes(piece) && p[4..8] == IntBytes(offset);
    assert q[..4] == NetworkBytes(piece) && q[4..8] == NetworkBytes(offset);
  }

  lemma {:induction false} SmallIsNot(i: int32)
    requires 0 < i < 256
    ensures !Symmetric(i)
  {
    assert IntBytes(i)[0] == i && IntBytes(i)[3] == 0;
  }

  /** The first piece but one, as it is announced and as it should be. */
  lemma {:induction false} HaveOneExample()
    ensures Frame(Have(1)) == [5, 0, 0, 0, 4, 1, 0, 0, 0] && NetworkFrame(Have(1)) == [0, 0, 0, 5, 4, 0, 0, 0, 1]
  {
    assert IntBytes(1) == [1, 0, 0, 0] && IntBytes(5) == [5, 0, 0, 0];
  }

  // ----- HAVE at the receiver

  class Connection {
    const peerBitfield: array<byte>

    constructor (field: Text)
      ensures fresh(peerBitfield) && peerBitfield[..] == field
    {
      peerBitfield := new byte[|field|](i requires 0 <= i < |field| => field[i]);
      new;
      assert peerBitfield[..] == field;
    }

    /** The HAVE case: a piece that the bitfield has room for is added to those of the peer. */
    method HandleHave(msg: Text)
      requires |msg| >= 9 && 0 <= IntOf(msg[5..9]) < 8 * peerBitfield.Length
      modifies peerBitfield
      ensures peerBitfield[..] == Announce(old(peerBitfield[..]), IntOf(msg[5..9]))
      ensures Pieces(peerBitfield[..]) == Pieces(old(peerBitfield[..])) + {IntOf(msg[5..9]) as int}
    {
      var index: nat := IntOf(msg[5..9]);
      AnnounceAdds(peerBitfield[..], index);
      var at, bit := index / 8, index % 8;
      peerBitfield[at] := SetBit(peerBitfield[at], 7 - bit);
      assert peerBitfield[..] == Announce(old(peerBitfield[..]), index);
    }
  }

}
